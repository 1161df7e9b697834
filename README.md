# Clemson soil report tools: text rules and record handling

This project models the rules two soil-report tools apply to text and records. The tools are for reports from the Clemson soil-testing lab.

- **The results scraper** (`streamlit_app.py`) reads the lab's results table. It finds six required columns by header name and turns every data row into a sample record. It then opens each sample's report page and fills in two fields from the page text:
  - the crop type, from a priority cascade of substring tests ("Cool-Season" before "Warm-Season" before "Centipede", else "N/A");
  - the lime recommendation, the leftmost capture of the pattern `([0-9]+(?:\.[0-9]+)?)\s*lb/1000`, else "None".
- **The PDF report tool** (`clemson_report_automation.py`) turns uploaded report PDFs into rows of a session table. It skips files whose text cannot be read. A "crop screen" sets each row's crop type to the first of three marker strings found in its text. A three-column summary of the table is shown.

The Dafny modules follow these components:

- `text.dfy`, module `Text`: character classes, Python's substring test `in` (`Contains`, proved equal to "occurs at some position"), ASCII `str.lower`, and `FirstContaining`, the "first candidate that occurs" rule both tools use for crops.
- `report_text.dfy`, module `ReportText`: the crop cascade (`CropType`) and the lime extraction (`LimeValue`). The pattern is given twice:
  - declaratively (`Matches`: a numeral, then `\s*lb/1000`);
  - as the backtracking matcher runs it (`CaptureEnd`, `Search`).

  The matcher is proved sound, complete and leftmost against the declarative form.
- `results_table.dfy`, module `ResultsTable`: header lookup (`IndexOf`, `LookupColumns`), and the row loop as a method that builds the records and lab numbers by appending (`AssembleRows`). The report loop is a method that overwrites crop and lime in an array in place (`ProcessReports`). `Scrape` runs the whole pipeline for one table.
- `report_automation.dfy`, module `ReportAutomation`: the upload loop (`BuildReportRows`), the session state as a class (`Session`, whose `RunCropScreen` updates the table row by row in place), and the summary projection (`Summary`).

The inputs are plain strings:
- header and cell strings stand for the `th`/`td` texts;
- the report page's visible text is a string;
- a PDF's extracted text is `Some(text)`, or `None` when it could not be read.

Fetching report number `idx` in the browser is a function parameter `fetch(idx, labNumber)`. It returns the page text, or `None` when the visit raised and the loop only warned.

## Model

| member | source | states |
|---|---|---|
| `Text.Contains` | streamlit_app.py:128-133 | the empty pattern is contained in every text, and a contained pattern is no longer than the text |
| `Text.ContainsIff` | streamlit_app.py:128 | Python's `p in s` holds exactly when `p` occurs at some position of `s` |
| `Text.FirstContaining` | clemson_report_automation.py:56-59 | the chosen candidate occurs in the text and no earlier candidate does; nothing is chosen exactly when no candidate occurs |
| `Text.Lower` | streamlit_app.py:139 | `text.lower()` keeps the length and lowers each character (ASCII letters only) |
| `ReportText.CropType` | streamlit_app.py:126-133 | "Cool-Season" whenever it occurs; "Warm-Season" exactly when it occurs and "Cool-Season" does not; "Centipede" exactly when it occurs and neither other does; "N/A" exactly when none of the three occurs |
| `ReportText.CropTypeIsFirstOccurring` | streamlit_app.py:127-133 | the cascade returns the first crop name, in priority order, that occurs in the text, and "N/A" when none does |
| `ReportText.RunEnd` | streamlit_app.py:136 | a greedy character run (`[0-9]+`, `\s*`) ends at the first character outside the class or at the end of the text |
| `ReportText.UnitAtIff` | streamlit_app.py:136 | the greedy `\s*` followed by `lb/1000` matches at a position exactly when the text there is whitespace and then `lb/1000` |
| `ReportText.CaptureEnd` | streamlit_app.py:136 | a capture found at a start position is non-empty and ends within the text |
| `ReportText.CaptureEndSound` | streamlit_app.py:136 | when the matcher succeeds at a start position, the capture is a numeral followed by `\s*lb/1000` |
| `ReportText.CaptureEndComplete` | streamlit_app.py:136 | every match of the pattern at a start position is found by the matcher with the same capture, so there is at most one capture per start |
| `ReportText.SearchLeftmost` | streamlit_app.py:136 | `re.search` returns a match with no match starting further left, and returns nothing only when no match exists |
| `ReportText.Search` | streamlit_app.py:136 | a found match starts at or after the search position, is non-empty and lies within the text |
| `ReportText.NumeralShape` | streamlit_app.py:136 | a capture is non-empty, begins and ends with a digit, and has only digits and at most one dot |
| `ReportText.LimeValue` | streamlit_app.py:135-140 | the lime value is "None" or a piece of the page text |
| `ReportText.LimeNoneIff` | streamlit_app.py:135-140 | the lime value is "None" exactly when the pattern matches nowhere, whether or not the text says "no lime" |
| `ReportText.LimeIsLeftmostCapture` | streamlit_app.py:136-138 | a recorded lime value is the capture of the leftmost match and is followed in the text by optional whitespace and `lb/1000` |
| `ReportText.LimeShape` | streamlit_app.py:136-138 | a recorded lime value is non-empty, begins and ends with a digit, and has only digits and at most one dot |
| `ResultsTable.IndexOf` | streamlit_app.py:58-63 | `list.index` gives the first position of the header, and fails exactly when the header is absent |
| `ResultsTable.LookupColumns` | streamlit_app.py:56-67 | succeeds exactly when all six required headers are present, then each index is the first position of its header; otherwise the error is "unexpected table format" |
| `ResultsTable.NonEmptyRowsAppend` | streamlit_app.py:71-74 | skipping rows without cells keeps the table order |
| `ResultsTable.NonEmptyRowsMembers` | streamlit_app.py:71-74 | the kept rows are exactly the rows that have cells |
| `ResultsTable.NonEmptyRowsAllKept` | streamlit_app.py:71-74 | when every row has cells, no row is skipped |
| `ResultsTable.NonEmptyRowsCount` | streamlit_app.py:71-74 | one kept row per row with cells |
| `ResultsTable.DataRowsMembers` | streamlit_app.py:71-74 | every data row has cells, and every row after the header row that has cells is a data row |
| `ResultsTable.Records` | streamlit_app.py:76-94 | one record per data row |
| `ResultsTable.AssembleRows` | streamlit_app.py:69-94 | succeeds exactly when every data row has all six columns. It then returns one record per data row, in table order: the projected cells, with crop and lime "". The lab numbers are the records' own, in the same order. A short row gives the index error |
| `ResultsTable.Refreshed` | streamlit_app.py:142-145 | reading a report keeps the six table fields, and a failed report leaves the record unchanged |
| `ResultsTable.RefreshedValues` | streamlit_app.py:127-143 | a read report sets the crop to one of the four crop values, and the lime to "None" or to a numeral that occurs in the page text followed by optional whitespace and `lb/1000` |
| `ResultsTable.ProcessReports` | streamlit_app.py:97-145 | afterwards each record is its old value with crop and lime replaced from its own report, or its old value when the report failed; no other record changes |
| `ResultsTable.Scrape` | streamlit_app.py:56-145 | a missing header gives the table-format error. Otherwise the scrape succeeds exactly when every data row fits the columns, and record `k` is data row `k` projected and refreshed from report `k` |
| `ReportAutomation.UploadedRowsAppend` | clemson_report_automation.py:19-37 | upload rows keep the upload order |
| `ReportAutomation.UploadedRows` | clemson_report_automation.py:19-37 | there are at most as many rows as files, and every row starts with empty crop type and lime amount |
| `ReportAutomation.UploadedRowsFromFiles` | clemson_report_automation.py:30-37 | every uploaded row carries the name and text of a readable uploaded file |
| `ReportAutomation.UploadedRowsCount` | clemson_report_automation.py:19-37 | the number of rows is the number of readable files |
| `ReportAutomation.UploadedRowsAllReadable` | clemson_report_automation.py:19-37 | when every file is readable, row `k` is file `k` with empty crop type and lime amount |
| `ReportAutomation.BuildReportRows` | clemson_report_automation.py:18-37 | the loop returns exactly the upload rows: unreadable files skipped, one fresh row per readable file, in order |
| `ReportAutomation.ScreenRow` | clemson_report_automation.py:55-59 | the screen keeps a row's filename, lime amount and text, and its crop type is either kept or one of the three markers |
| `ReportAutomation.Screened` | clemson_report_automation.py:54-59 | the screen keeps the number of rows |
| `ReportAutomation.ScreenRowSpec` | clemson_report_automation.py:54-59 | the screen sets the crop type to the first marker that occurs in the text, keeps the row unchanged when none occurs, and never changes filename, lime amount or text |
| `ReportAutomation.ScreenedIdempotent` | clemson_report_automation.py:54-59 | screening twice gives the same table as screening once |
| `ReportAutomation.ScreenFreshRows` | clemson_report_automation.py:31-59 | on freshly uploaded rows, the crop type after the screen is "" exactly when no marker occurs in the text |
| `ReportAutomation.Summary` | clemson_report_automation.py:43-47 | the summary has the rows of the table, in order, each with that row's filename, crop type and lime amount |
| `ReportAutomation.SummaryAfterScreen` | clemson_report_automation.py:62-66 | after the screen the summary keeps each row's filename and lime amount, and is unchanged for rows whose text has no marker |
| `ReportAutomation.SummaryOfUpload` | clemson_report_automation.py:43-47 | right after an upload the summary has one row per readable file, each with empty crop type and lime amount |
| `ReportAutomation.Session.constructor` | clemson_report_automation.py:9-10 | a new session has an empty report table |
| `ReportAutomation.Session.Upload` | clemson_report_automation.py:16-39 | a non-empty upload replaces the table with the upload rows; no upload keeps the table |
| `ReportAutomation.Session.RunCropScreen` | clemson_report_automation.py:53-59 | the table afterwards is the screened old table, row by row in place |

## Left out

- Browser automation is left out because it is I/O and timing. This covers driver setup, page loads, waits, `time.sleep`, tab and window switching, the "Page Timeout" retry and the results-URL string (streamlit_app.py:24-48, 96-122, 146-150). Visiting report `idx` is the parameter `fetch`, which gives the page text or `None` when the visit raised.
- HTML parsing with BeautifulSoup is left out because it is a foreign library. This covers the "no table found" stop and `get_text(strip=True)` (streamlit_app.py:49-56, 124-125). Header texts, row cell texts and report text are inputs.
- PDF text extraction with PyMuPDF is left out because it is a foreign library (clemson_report_automation.py:20-28). Each file's text is an input, `None` when extraction raised. A file that fails partway through is skipped whole, as in the source.
- pandas DataFrames, CSV encoding, download buttons, `st.error`/`st.warning` messages and Streamlit widgets are left out because they are UI glue. The summary is modelled as a sequence of three-field rows.
- Python dictionaries become datatypes with one field per key. The model does not capture aliasing between the session list and its row dictionaries: a row is a value in the session's sequence, replaced in place.
- `Text.IsSpace`: `\s` is modelled as the ten ASCII characters for which `str.isspace()` holds, the separators U+001C to U+001F included. Python's `\s` also accepts non-ASCII Unicode whitespace such as U+00A0 and U+2028; those are left out because lab text is ASCII.
- `Text.Lower`: `str.lower` is modelled on ASCII letters only. It only feeds the "no lime" test, which cannot change the result.
- `ResultsTable.ProcessReports`: the lab numbers are only used to find the report link. In the model they are passed to `fetch` and nothing more is said about them.
