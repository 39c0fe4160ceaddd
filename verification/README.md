# shoken-webapp report engine in Dafny

This is a model of the report engine of `shoken-webapp`, with proofs. The engine takes a brokerage's CSV export, either a dividend statement or a realized profit/loss statement. It reads each row into a typed record, groups profit/loss records by trade date, and renders an HTML table.

The model covers these parts of the engine:

- **Coercers** (`common.dfy`): the tolerant cell coercers. Dates use the `%Y/%m/%d` pattern. Integers drop every comma and are then read as an `i32`. Floats go to an opaque `f64` reader. Text passes through unchanged.
  - The parts of `chrono` and of Rust's integer parser that the coercers use are written out concretely, in `dates.dfy` and `numbers.dfy`.
- **Records** (`dividend_list.dfy`, `profit_and_loss.dfy`): the two record types. For each, the model gives:
  - the fixed column offsets a row is read from;
  - the ordered name/value field list used for rendering;
  - the synthetic totals rows, including the withholding-tax rule.
- **Managers** (`profit_and_loss_manager.dfy`, `dividend_list_manager.dfy`): each is a class with a map field. The profit/loss manager updates its map in place. The dividend manager never changes its map, because its `set` is `todo!()`.
  - `set` files each dated profit/loss record at the end of its trade date's group.
  - `generate_html_table` writes the labelled header.
- **Header rendering** (`table_header.dfy`, with the element syntax in `markup.dfy`): every header writer uses the same label lookup and `<th>` loop.
- **Pipeline** (`template.dfy`): `execute`, which reads the bytes, then processes the records, then renders the table.
- **Factory** (`factory.dfy`): `create_factory`.
- **CSV accessor** (`csv_accessor.dfy`, with RFC 3629 UTF-8 syntax in `utf8.dfy`): the encoding guess from the first three bytes of a file, and the record-collection loop.
- **Raw-table assembly** (`csv_processor.dfy`): the assembly in `process_csv`.

The libraries the engine calls are parameters, gathered in `libraries.dfy`:

- the `encoding_rs` Shift_JIS decoder;
- the `chardetng` guess-and-decode step;
- the `csv` crate's tokenizer;
- Rust's `f64` parser.

The label table (`HEADERS`) is a `map<string, string>` parameter. The tax rate (`TAX_RATE`) is a `Rate` parameter: a real number between 0 and 1.

A Rust `unwrap` on a missing label, the factory's `panic!` on an unknown id, and `todo!()` each stop the program. The model returns them as `Err` values of `Errors.ReportError`.

The trait `TemplateManager` declares `process_records`, but the managers implement a method named `set`. The model treats `set` as the implementation of `process_records`.

The code and the system's design description disagree in a few places. The model follows the code each time:

- **Withholding.** The design rounds the withheld tax. The code truncates it with `as u32`. Because the product is never negative there, the model takes the floor.
- **Table body.** The design renders group rows and totals rows under the header. The code's `generate_html_table` writes only the header and opens `<tbody>`.
- **Row filtering.** The design filters rows by width and treats short rows as totals rows. The code does neither.
- **Dividend grouping.** The design groups dividends by month. The code's dividend `set` is not written yet.

## Model

| member | source | states |
|---|---|---|
| Common.ParseDate | src/services/common.rs:4-20 | A missing cell gives no date. A date comes only from text in the `%Y/%m/%d` form that names that date, and it is always a real calendar day. |
| Common.ParseDateExactly | src/services/common.rs:7-16 | For every text and every date: the text reads as that date exactly when it is a year, `/`, a month of one or two digits, `/`, and a day of one or two digits naming it. Any other text gives no date. |
| Common.ParseDateNeedsSlash | src/services/common.rs:7-16 | Text without a `/` never gives a date. |
| Common.ParseDateRejectsOtherForms | src/services/common.rs:7-16 | `2024-01-05` and `abc` give no date. |
| Common.ParseDateUnpadded | src/services/common.rs:7-11 | `2024/1/5` reads as 5 January 2024: one-digit months and days are accepted. |
| Dates.ParseDateText | src/services/common.rs:7 | `NaiveDate::parse_from_str` with `%Y<sep>%m<sep>%d`: a year, the separator, a month, the separator, a day, nothing after, and the three must name a real day. |
| Dates.ParseDateTextShape | src/services/common.rs:7 | Whatever the reader accepts is in the pattern's form, with the fields of the date it returns. |
| Dates.ParseDateTextOfSplit | src/services/common.rs:7 | Text in the pattern's form, with any non-digit separator, is read as the date it names when that day exists, and is rejected otherwise. |
| Common.ParseDateRoundTrip | src/services/common.rs:7-11 | Every valid date written `YYYY/MM/DD` reads back as itself. |
| Common.ParseDateRejectsImpossibleDays | src/services/common.rs:7-15 | Text in the pattern's form, with a two-digit month and day, that names no real day (April 31, month 13, day 0) gives no date, and no error. |
| Common.ParseDateLeapDay | src/services/common.rs:7-15 | `2023/02/29` is rejected and `2024/02/29` is accepted. |
| Dates.ParseFormattedFields | src/services/common.rs:7 | A year, month and day written in the pattern's form read back exactly when they name a real day. |
| Dates.ParseFormattedDate | src/services/common.rs:7 | For any non-digit separator, reading a formatted date back gives the same date. |
| Common.ParseInt | src/services/common.rs:22-33 | A missing cell gives no number. A result is always the i32 that the comma-free text denotes in Rust's integer grammar. |
| Common.ParseIntRoundTrip | src/services/common.rs:24-25 | The decimal form of any i32, with commas inserted anywhere, reads back as that number. |
| Common.ParseIntIgnoresCommas | src/services/common.rs:24 | Inserting a comma anywhere never changes the result. |
| Common.ParseIntOutOfRange | src/services/common.rs:24-29 | A well-formed number outside the i32 range gives no number. |
| Common.ParseIntRejectsNonNumeric | src/services/common.rs:24-29 | The empty cell and `-` give no number. |
| Common.ParseIntThousands | src/services/common.rs:24 | `1,234` reads as 1234. |
| Numbers.IntToString | src/services/common.rs:24 | The decimal form of an integer is comma-free and is read back by the integer grammar as that integer. |
| Numbers.ParseSigned | src/services/common.rs:24 | The grammar of `str::parse::<i32>` before the range check: an optional sign and one or more decimal digits. |
| Numbers.RemoveCommas | src/services/common.rs:24 | The result holds no comma, is no longer than the input, and leaves comma-free text unchanged. |
| Numbers.RemoveCommaBetween | src/services/common.rs:24 | Removing commas from `a + "," + b` gives the same text as removing them from `a + b`. |
| Common.ParseFloat | src/services/common.rs:35-46 | A missing cell gives no float. |
| Common.ParseFloatIgnoresCommas | src/services/common.rs:37 | Inserting a comma never changes the float read. |
| Common.ParseString | src/services/common.rs:48-53 | The cell is returned unchanged, present or not. |
| Common.ShowDateRoundTrip | src/services/profit_and_loss/profit_and_loss.rs:61-64 | A date listed in ISO form reads back as the same date, and an absent date stays absent. |
| Common.ShowDate | src/services/profit_and_loss/profit_and_loss.rs:63-64 | A listed date value is present exactly when the date is, and is the date's ISO `YYYY-MM-DD` form. |
| Common.ShowInt | src/services/profit_and_loss/profit_and_loss.rs:72 | A listed integer value is present exactly when the integer is, and is comma-free decimal text that reads back as it. |
| Common.ShowF64 | src/services/profit_and_loss/profit_and_loss.rs:73-76 | A listed float value is present exactly when the float is, and is the text it displays as. |
| Common.ShowI32RoundTrip | src/services/dividend_list/dividend_list.rs:84-119 | An i32 field's listed value reads back as the field, and absence stays absence. |
| Common.ShowU32RoundTrip | src/services/profit_and_loss/profit_and_loss.rs:59-99 | The withholding field's listed value reads back as the field, and absence stays absence. |
| Dates.DateToString | src/services/profit_and_loss/profit_and_loss.rs:63-64 | `NaiveDate`'s display form: the year, then the month and day in two digits, joined by `-`. |
| Common.Get | src/services/profit_and_loss/profit_and_loss.rs:43 | A column has a value exactly when the row is long enough, and that value is the cell. |
| DividendListRecord.New | src/services/dividend_list/dividend_list.rs:25-42 | All 14 fields are absent, so every listed value is absent. |
| DividendListRecord.NewTotalDividendList | src/services/dividend_list/dividend_list.rs:44-63 | The three totals hold exactly the three given sums. Every other field is absent. |
| DividendListRecord.FromRecord | src/services/dividend_list/dividend_list.rs:65-82 | A data row never carries totals. |
| DividendListRecord.FromRecordReadsElevenColumns | src/services/dividend_list/dividend_list.rs:65-77 | Columns after the eleventh are never read. |
| DividendListRecord.FromRecordMissingColumn | src/services/dividend_list/dividend_list.rs:65-77 | A seven-column row leaves the shares field, and the fields after it, absent. Adding column 7 sets exactly the shares field. |
| DividendListRecord.GetAllFields | src/services/dividend_list/dividend_list.rs:84-119 | Exactly 14 pairs, with names in a fixed order that does not depend on the values. |
| DividendListRecord.FieldsRoundTrip | src/services/dividend_list/dividend_list.rs:84-119 | The field list loses nothing: reading the values back gives the record. |
| ProfitAndLossRecord.New | src/services/profit_and_loss/profit_and_loss.rs:23-39 | All 13 fields are absent, so every listed value is absent. |
| ProfitAndLossRecord.FromRecord | src/services/profit_and_loss/profit_and_loss.rs:41-57 | A data row never carries the total, withholding or net fields. |
| ProfitAndLossRecord.FromRecordIgnoresColumns5And6 | src/services/profit_and_loss/profit_and_loss.rs:41-52 | Changing column 5 or 6 never changes the record. |
| ProfitAndLossRecord.FromRecordReadsTwelveColumns | src/services/profit_and_loss/profit_and_loss.rs:41-52 | Columns after the twelfth are never read. |
| ProfitAndLossRecord.GetAllFields | src/services/profit_and_loss/profit_and_loss.rs:59-99 | Exactly 13 pairs, with names in a fixed order that does not depend on the values. |
| ProfitAndLossRecord.FieldsRoundTrip | src/services/profit_and_loss/profit_and_loss.rs:59-99 | The field list loses nothing: reading the values back gives the record. |
| ProfitAndLossRecord.Withholding | src/services/profit_and_loss/profit_and_loss.rs:104-108 | Zero when the taxable total is negative. Otherwise it is the truncated product of that total and the rate: at most the total, and within one of the exact product. |
| ProfitAndLossRecord.WrapI32 | src/services/profit_and_loss/profit_and_loss.rs:109-124 | An i32 sum is unchanged. An overflowing sum wraps, congruent modulo 2^32. |
| ProfitAndLossRecord.NewTotalRealizedProfitAndLoss | src/services/profit_and_loss/profit_and_loss.rs:101-126 | Every per-trade field is absent. The record carries the withholding, the wrapped total, and the wrapped total minus the withholding. |
| ProfitAndLossRecord.TotalsArithmetic | src/services/profit_and_loss/profit_and_loss.rs:104-124 | Without overflow: the total is `s + n` and the net is `s + n - w`. A negative taxable total leaves the net at `s + n`. Otherwise the net lies between the tax-free total and `s + n`. |
| Markup.ElementsAppend | src/services/templete.rs:33-36 | Appending one element's text after the others gives the elements of the longer list. |
| Markup.ElementsConcat | src/services/csv_processor.rs:25-32 | The elements of two lists are the first list's elements followed by the second's. |
| Markup.ParseElementsRoundTrip | src/services/templete.rs:35 | Bodies without markup read back from their concatenated elements, in order. |
| TableHeader.FirstUnlabelled | src/services/templete.rs:34 | Every name before this position has a label. The name at this position has none. |
| TableHeader.LabelsOf | src/services/templete.rs:33-36 | One label per name, in order, each that name's label. |
| TableHeader.HeaderTable | src/services/templete.rs:31-39 | The header text: the table opening, one `<th>` per name holding its label, then the closing text; or the first name without a label. |
| TableHeader.BuildHeader | src/services/templete.rs:32-37 | The `push_str` loop gives the header table of the names, or the first missing label. |
| TableHeader.GenerateTableHeader | src/services/templete.rs:31-39 | The header of the field names closes with `</tr></thead>` and does not open `<tbody>`. Values are ignored. |
| TableHeader.HeaderTableFailsOnlyOnMissingLabel | src/services/templete.rs:34 | The header is written exactly when every name has a label. A failure names an unlabelled name and never substitutes it. |
| TableHeader.HeaderTableReadsBack | src/services/templete.rs:32-38 | The header starts with `<table><thead><tr>` and ends with its closing text. Between them is one `<th>` per name holding its label, in order. |
| TableHeader.HeaderIgnoresValues | src/services/templete.rs:33 | Field lists with the same names give the same header. |
| ProfitAndLossLib.OnDate | src/services/profit_and_loss/lib.rs:31-35 | The records of one date: each drawn from the input and carrying that date. |
| ProfitAndLossLib.Insert | src/services/profit_and_loss/lib.rs:31-35 | `entry(date).or_insert_with(Vec::new).push(p)`: the record goes at the end of its date's group, which is created empty if missing. |
| ProfitAndLossLib.InsertAll | src/services/profit_and_loss/lib.rs:27-37 | Each record inserted in turn, in order. |
| ProfitAndLossLib.ReadRows | src/services/profit_and_loss/lib.rs:28-29 | One record per row, in row order, each read from its own row. |
| ProfitAndLossLib.KeepDated | src/services/profit_and_loss/lib.rs:30 | The records with a trade date, never more than were given. |
| ProfitAndLossLib.KeepDatedAppend | src/services/profit_and_loss/lib.rs:28-30 | Filtering two runs of records gives the filtered first run followed by the filtered second. |
| ProfitAndLossLib.KeepDatedNone | src/services/profit_and_loss/lib.rs:30 | Records that all lack a trade date are all dropped. |
| ProfitAndLossLib.KeepDatedAll | src/services/profit_and_loss/lib.rs:30 | Records that all carry a trade date are all kept, unchanged and in order. |
| ProfitAndLossLib.Ingested | src/services/profit_and_loss/lib.rs:28-36 | The kept records: at most one per row, each with a trade date. |
| ProfitAndLossLib.ProfitAndLossManager.constructor | src/services/profit_and_loss/lib.rs:18-23 | A new manager has an empty, well-grouped map. |
| ProfitAndLossLib.ProfitAndLossManager.Set | src/services/profit_and_loss/lib.rs:27-38 | The new map is the old one with every dated row's record pushed onto its date's group, in row order. The map stays well grouped. |
| ProfitAndLossLib.ProfitAndLossManager.GenerateHtmlTable | src/services/profit_and_loss/lib.rs:40-51 | The header of the 13 field names, ending in `</tr></thead><tbody>`. It does not depend on the map. |
| ProfitAndLossLib.InsertAllGroups | src/services/profit_and_loss/lib.rs:31-35 | Each group becomes its old contents followed by the new records of that date, in order. A date is a key exactly when it was one or got a record. |
| ProfitAndLossLib.InsertAllWellGrouped | src/services/profit_and_loss/lib.rs:30-35 | No group is ever empty, and each record sits under its own trade date. |
| ProfitAndLossLib.GroupByTradeDate | src/services/profit_and_loss/lib.rs:27-38 | After one `set` on a new manager, each date's group is exactly its rows' records, in row order. |
| ProfitAndLossLib.SetTwice | src/services/profit_and_loss/lib.rs:31-35 | `set` is cumulative: two batches give the same map as one batch of both. |
| ProfitAndLossLib.IngestedAppend | src/services/profit_and_loss/lib.rs:28-29 | The records kept from two batches of rows are those kept from each batch, in order. |
| ProfitAndLossLib.IngestedCount | src/services/profit_and_loss/lib.rs:27-37 | The number of records kept equals the number of rows whose column 0 reads as a date. |
| ProfitAndLossLib.IngestedDropsUndated | src/services/profit_and_loss/lib.rs:30 | Rows without a date are dropped without error. |
| ProfitAndLossLib.IngestedKeepsDated | src/services/profit_and_loss/lib.rs:28-36 | When every row is dated, every row's record is kept, in order. |
| ProfitAndLossLib.HtmlTableCells | src/services/profit_and_loss/lib.rs:41-50 | The header holds the 13 labels in field order. |
| DividendListLib.DividendListManager.constructor | src/services/dividend_list/lib.rs:18-23 | A new manager has an empty map. |
| DividendListLib.DividendListManager.Set | src/services/dividend_list/lib.rs:27-29 | Always fails as not implemented. |
| DividendListLib.DividendListManager.GenerateHtmlTable | src/services/dividend_list/lib.rs:31-42 | The header of the 14 field names, ending in `</tr></thead><tbody>`. It does not depend on the map. |
| DividendListLib.HtmlTableCells | src/services/dividend_list/lib.rs:32-41 | The header holds 14 labels in field order, framed by its opening and closing text. |
| DividendListLib.HtmlTableMissingLabel | src/services/dividend_list/lib.rs:36 | A field without a label fails the header, naming an unlabelled field. |
| Utf8.EncodeScalar | src/modules/csv/lib.rs:36 | The UTF-8 form of a scalar value is one valid character of the shortest length. |
| Utf8.DecodeEncodeScalar | src/modules/csv/lib.rs:36 | The UTF-8 form of a scalar value decodes back to that value. |
| Utf8.PrependChar | src/modules/csv/lib.rs:36 | A valid character in front of valid UTF-8 is valid UTF-8. |
| Utf8.EncodeAllValid | src/modules/csv/lib.rs:36 | Every encoded text is valid UTF-8. |
| Utf8.AsciiValid | src/modules/csv/lib.rs:36 | ASCII bytes are valid UTF-8. |
| Utf8.ValidIsPartial | src/modules/csv/lib.rs:36 | Complete UTF-8 is valid up to a cut character. |
| Utf8.PrefixIsPartial | src/modules/csv/lib.rs:33-36 | Every prefix of valid UTF-8 is whole characters followed by at most one cut character. |
| CsvAccessor.FirstBytes | src/modules/csv/lib.rs:34-35 | At most three bytes: exactly the first `min(3, size)` bytes of the file. |
| CsvAccessor.DetectEncoding | src/modules/csv/lib.rs:32-42 | `detect_encoding` as written: UTF-8 exactly when the read succeeded and the bytes read are valid UTF-8 by themselves, Shift_JIS otherwise. |
| CsvAccessor.DetectEncodingFixed | src/modules/csv/lib.rs:33-38 | The corrected detection: UTF-8 when the bytes read are whole characters followed by at most one character cut short. |
| CsvAccessor.DetectEmptyFile | src/modules/csv/lib.rs:35-38 | An empty file is judged UTF-8. |
| CsvAccessor.DetectReadFailure | src/modules/csv/lib.rs:35-41 | A failed read is judged Shift_JIS. |
| CsvAccessor.DetectAscii | src/modules/csv/lib.rs:36-38 | An ASCII start is judged UTF-8. |
| CsvAccessor.DetectIgnoresLaterBytes | src/modules/csv/lib.rs:34-35 | Bytes after the third never reach the decision. |
| CsvAccessor.DetectStrayLeadByte | src/modules/csv/lib.rs:36-41 | A first byte that cannot start a UTF-8 character makes the file Shift_JIS. |
| CsvAccessor.DetectWholeCharacters | src/modules/csv/lib.rs:36-38 | UTF-8 text whose characters end at the three-byte edge, or at the end of the file, is judged UTF-8. |
| CsvAccessor.DetectSplitsCharacter | src/modules/csv/lib.rs:34-36 | A valid UTF-8 file with one or two ASCII bytes before a character of three or more bytes is judged Shift_JIS. |
| CsvAccessor.DetectSplitsCharacterExample | src/modules/csv/lib.rs:34-36 | The bytes of `1,日` are valid UTF-8 but are judged Shift_JIS as written. The corrected detection judges them UTF-8. |
| CsvAccessor.DetectFixedAcceptsUtf8 | src/modules/csv/lib.rs:33-38 | The corrected detection judges every valid UTF-8 file UTF-8. |
| CsvAccessor.DetectFixedExtends | src/modules/csv/lib.rs:32-42 | Wherever the written detection says UTF-8, the corrected one does too. |
| CsvAccessor.ValidConcat | src/modules/csv/lib.rs:36 | Valid UTF-8 followed by valid UTF-8 is valid UTF-8. |
| CsvAccessor.FirstErr | src/modules/csv/lib.rs:26-28 | Every record before this position succeeded, and the record at this position failed. |
| CsvAccessor.Collected | src/modules/csv/lib.rs:25-29 | The outcome of pushing `record?` in turn: every value in order, or the first failure. |
| CsvAccessor.CollectedFailsAt | src/modules/csv/lib.rs:26-28 | A failed record after only successes is the result of the loop. |
| CsvAccessor.CollectedValues | src/modules/csv/lib.rs:25-29 | With no failed record, the loop returns every record's value in order. |
| CsvAccessor.CollectRecords | src/modules/csv/lib.rs:25-29 | The collection loop returns every record in order, or the first failure. |
| CsvAccessor.CollectedSpec | src/modules/csv/lib.rs:25-29 | The result is a list exactly when no record failed, and the list holds the records in file order. A failure is the first failed record's, with no partial list. |
| CsvAccessor.Read | src/modules/csv/lib.rs:12-30 | The records read through the encoding that `detect_encoding`, as written, guesses from the first bytes, with the whole file decoded after the rewind. |
| CsvAccessor.ReadFixed | src/modules/csv/lib.rs:12-38 | The same reader with the corrected detection: every valid UTF-8 file is read as UTF-8. |
| Template.ReadCsvData | src/services/csv/lib.rs:8-23 | A Shift_JIS decode with errors fails the read. Otherwise the result is the records after the header row, or the first bad one. |
| Template.CsvData | src/services/csv/lib.rs:8-23 | A Shift_JIS decode with errors fails. Otherwise the result is the tokenizer's records after the header row, or the first record's failure. |
| Template.CsvDataDecodeFailure | src/services/csv/lib.rs:9-12 | A failed decode fails the read without tokenizing. |
| Template.CsvDataRecords | src/services/csv/lib.rs:14-22 | A clean decode yields the tokenizer's records in order exactly when none fails. |
| Template.Execute | src/services/templete.rs:18-22 | A failed read is returned and the manager is untouched. The dividend manager then fails in processing. The profit/loss manager files the records and returns its header. |
| Factory.KindOf | src/services/factroy.rs:7-11 | Exactly `dividend` and `profit-loss` name a kind. Every other id names none. |
| Factory.CreateFactory | src/services/factroy.rs:6-12 | A new manager of the named kind with an empty map, or an unknown-id error carrying the id. |
| Factory.KindOfIsExact | src/services/factroy.rs:7-10 | Ids that differ in case, spacing or punctuation are unknown. |
| Factory.KindOfRejectsPrefixed | src/services/factroy.rs:7-10 | Text put before a known id makes it unknown. |
| CsvProcessor.Rows | src/services/csv_processor.rs:25-32 | One row per record, in order, each the record's cells. |
| CsvProcessor.RenderTable | src/services/csv_processor.rs:24-33 | The bordered table: its opening tag, one row per record in order, its closing tag. |
| CsvProcessor.ProcessedTable | src/services/csv_processor.rs:24-35 | The table of all records, or the first record error and no table. |
| CsvProcessor.AppendRow | src/services/csv_processor.rs:27-31 | The inner loop appends `<tr>`, one `<td>` per field in column order, then `</tr>`. |
| CsvProcessor.AssembleTable | src/services/csv_processor.rs:24-35 | The nested loops give the table of all records, or the first record error and no table. |
| CsvProcessor.ProcessCsv | src/services/csv_processor.rs:14-35 | The decoded text is tokenized with headers off, then assembled. |
| CsvProcessor.ProcessedTableShape | src/services/csv_processor.rs:24-33 | A table exists exactly when no record failed. It starts with `<table border="1">` and ends with `</table>`. A failure is a record's own error. |
| CsvProcessor.FirstRecordIsARow | src/services/csv_processor.rs:20-22 | The first record is rendered as the first data row. |
| CsvProcessor.RowsInOrder | src/services/csv_processor.rs:25-32 | The rows of two batches of records are the first batch's rows followed by the second's. |
| CsvProcessor.RowReadsBack | src/services/csv_processor.rs:28-30 | Fields without markup read back from their row, cell by cell. |
| CsvProcessor.NoEscaping | src/services/csv_processor.rs:28-30 | Fields are not escaped: a field holding `</td><td>` renders exactly as two fields. |

## Findings

| source | as written | input that shows it | evidently intended | confidence | as-written member | corrected member |
|---|---|---|---|---|---|---|
| src/modules/csv/lib.rs:34-36 | The first three bytes must be complete UTF-8 by themselves. | A UTF-8 file starting `1,日` (bytes 31 2C E6 97 A5): the window ends inside `日`, so the file is judged Shift_JIS. | Per the comment at line 33, a file is UTF-8 when its start can be read as UTF-8. A character cut by the window does not count against it. | medium (not executed) | CsvAccessor.DetectSplitsCharacter | CsvAccessor.DetectFixedAcceptsUtf8 |

`CsvAccessor.DetectEncoding` models the detection as written, and `CsvAccessor.Read` uses it, as the program does. `CsvAccessor.DetectEncodingFixed` is the corrected version. It accepts whole characters followed by at most one character cut short. `CsvAccessor.ReadFixed` is the reader built on it.

## Left out

- The HTTP layer is not modelled: the server, routing, the upload handler, multipart parsing, and the async chunk loop of `process_csv` (`src/services/csv_processor.rs:8-12`). The uploaded bytes are a parameter.
- `src/config.rs` and the browser scripts under `asset/js` are not part of this model.
- The `setting` module holding `HEADERS` and `TAX_RATE` is not part of this model. Both are parameters.
- The libraries (`encoding_rs`, `encoding_rs_io`, `chardetng` and the `csv` tokenizer) are not modelled. Each is a function parameter whose behaviour is not constrained.
- Logging (`println!`, `eprintln!`) and the text of `anyhow` error messages are not modelled. Errors are kinds of `ReportError`.
- Short reads are not modelled. `FirstBytes` assumes the one `read` into the three-byte buffer fills it whenever the file has three bytes, which `Read::read` does not promise.
- I/O errors are not modelled. This covers `File::open` and the rewind `seek` in `src/modules/csv/lib.rs`, whose file contents are a parameter. A failed three-byte read is covered, as the `None` input of `DetectEncoding`.
- `RefCell` interior mutability and `Box<dyn TemplateManager>` dispatch are not modelled. The map is a class field, the manager kinds are a closed datatype, and the empty `TemplateStruct` field is omitted.
- Common.ParseFloat: `f64` values are opaque, so the model does not constrain the numeric value read.
- Common.ParseDate: chrono's tolerance of whitespace inside the input is not modelled. The model reads the pattern strictly.
- ProfitAndLossRecord.Withholding: uses the exact product of the total and a real rate, then the floor. It does not model `f64` rounding. The two can differ by one wherever the product is close to an integer, at ordinary totals too. Whether they differ also depends on whether `rate` is the decimal rate or the binary value of the `f64` constant.
- ProfitAndLossRecord.WrapI32: follows a release build. A debug build panics on overflow instead.
- ProfitAndLossLib.ProfitAndLossManager.Set: Dafny maps are unordered, so the ascending key order of the `BTreeMap` is not modelled. No code in the core iterates the map.
- ProfitAndLossLib.IngestedCount: counts the kept records before they are filed. The sum of the group sizes in the map is not stated. `InsertAllGroups` gives each group's exact contents instead.
- DividendListLib.DividendListManager.Set: the source has no behaviour beyond `todo!()`, so there is no grouping of dividends to model.
