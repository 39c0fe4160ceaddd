/** The table assembly of `process_csv` in `src/services/csv_processor.rs`:
    the uploaded bytes are decoded with a guessed encoding, tokenized with
    headers off, and every record becomes one table row of cells, copied
    verbatim. */
module CsvProcessor {
  import opened Wrappers
  import opened Errors
  import opened Numbers
  import opened Common
  import opened Libraries
  import opened CsvAccessor
  import opened Markup

  const TableStart: string := "<table border=\"1\">"
  const TableEnd: string := "</table>"

  /** The cells of one row, one `<td>` per field in column order. */
  function RowBody(record: StringRecord): string {
    Elements("td", record)
  }

  function Rows(records: seq<StringRecord>): (rows: seq<string>)
    ensures |rows| == |records|
    ensures forall i :: 0 <= i < |records| ==> rows[i] == RowBody(records[i])
  {
    seq(|records|, i requires 0 <= i < |records| => RowBody(records[i]))
  }

  /** The whole table: one `<tr>` per record, in order. */
  function RenderTable(records: seq<StringRecord>): string {
    TableStart + Elements("tr", Rows(records)) + TableEnd
  }

  /** What the loop over `rdr.records()` produces: the table of every record,
      or the first bad record and no table. */
  function ProcessedTable(rs: seq<Result<StringRecord, string>>): Result<string, ReportError> {
    match Collected(rs)
    case Err(e) => Err(e)
    case Ok(records) => Ok(RenderTable(records))
  }

  /** The inner loop of `process_csv`: one record's row appended to the
      table. */
  method AppendRow(table: string, record: StringRecord) returns (t: string)
    ensures t == table + Element("tr", RowBody(record))
  {
    t := table + "<tr>";
    var k := 0;
    while k < |record|
      invariant 0 <= k <= |record|
      invariant t == table + "<tr>" + Elements("td", record[..k])
    {
      assert record[..k + 1] == record[..k] + [record[k]];
      ElementsExtend(table + "<tr>", "td", record[..k], record[k]);
      t := t + Element("td", record[k]);
      k := k + 1;
    }
    assert record[..k] == record;
    t := t + "</tr>";
  }

  lemma RowsSnoc(done: seq<StringRecord>, record: StringRecord)
    ensures Elements("tr", Rows(done + [record])) == Elements("tr", Rows(done)) + Element("tr", RowBody(record))
  {
    assert Rows(done + [record]) == Rows(done) + [RowBody(record)];
    ElementsAppend("tr", Rows(done), RowBody(record));
  }

  /** One more row keeps the table so far in step with the records so far. */
  lemma TableSoFarSnoc(start: string, table: string, done: seq<StringRecord>, record: StringRecord)
    requires table == start + Elements("tr", Rows(done))
    ensures table + Element("tr", RowBody(record)) == start + Elements("tr", Rows(done + [record]))
  {
    RowsSnoc(done, record);
  }

  lemma ProcessedTableFailsAt(rs: seq<Result<StringRecord, string>>, i: nat)
    requires i < |rs| && rs[i].Err?
    requires forall j :: 0 <= j < i ==> rs[j].Ok?
    ensures ProcessedTable(rs) == Err(CsvError(rs[i].error))
  {
    CollectedFailsAt(rs, i);
  }

  lemma ProcessedTableOfValues(rs: seq<Result<StringRecord, string>>, records: seq<StringRecord>)
    requires |records| == |rs|
    requires forall j :: 0 <= j < |rs| ==> rs[j].Ok? && records[j] == rs[j].value
    ensures ProcessedTable(rs) == Ok(RenderTable(records))
  {
    CollectedValues(rs, records);
  }

  /** The outer loop of `process_csv`: every record's row in turn, stopping
      at the first bad record. */
  method AssembleTable(rs: seq<Result<StringRecord, string>>) returns (r: Result<string, ReportError>)
    ensures r == ProcessedTable(rs)
  {
    var table := TableStart;
    ghost var done: seq<StringRecord> := [];
    var i := 0;
    while i < |rs|
      invariant 0 <= i <= |rs|
      invariant forall j :: 0 <= j < i ==> rs[j].Ok?
      invariant |done| == i
      invariant forall j :: 0 <= j < i ==> done[j] == rs[j].value
      invariant table == TableStart + Elements("tr", Rows(done))
    {
      if rs[i].Err? {
        ProcessedTableFailsAt(rs, i);
        return Err(CsvError(rs[i].error));
      }
      var record := rs[i].value;
      TableSoFarSnoc(TableStart, table, done, record);
      table := AppendRow(table, record);
      done := done + [record];
      i := i + 1;
    }
    ProcessedTableOfValues(rs, done);
    table := table + TableEnd;
    return Ok(table);
  }

  /** `process_csv` once the bytes are in: decode with the guessed encoding,
      tokenize with headers off, assemble. */
  method ProcessCsv(bytes: seq<byte>, libs: Libraries) returns (r: Result<string, ReportError>)
    ensures r == ProcessedTable(libs.csvRecords(libs.sniffDecode(bytes), false))
  {
    var text := libs.sniffDecode(bytes);
    r := AssembleTable(libs.csvRecords(text, false));
  }

  /** The table is framed by its opening and closing tags, and any record
      error gives no table at all. */
  lemma ProcessedTableShape(rs: seq<Result<StringRecord, string>>)
    ensures ProcessedTable(rs).Ok? <==> forall i :: 0 <= i < |rs| ==> rs[i].Ok?
    ensures ProcessedTable(rs).Ok? ==>
      var t := ProcessedTable(rs).value;
      |TableStart| + |TableEnd| <= |t| && t[..|TableStart|] == TableStart && t[|t| - |TableEnd|..] == TableEnd
    ensures ProcessedTable(rs).Err? ==>
      exists k :: 0 <= k < |rs| && rs[k].Err? && ProcessedTable(rs).error == CsvError(rs[k].error)
  {
    CollectedSpec(rs);
  }

  /** Headers are off: the first record is the first row, rendered like any
      other, ahead of the rest. */
  lemma FirstRecordIsARow(records: seq<StringRecord>)
    requires records != []
    ensures RenderTable(records) ==
      TableStart + "<tr>" + Elements("td", records[0]) + "</tr>" + Elements("tr", Rows(records[1..])) + TableEnd
  {
    assert Rows(records)[1..] == Rows(records[1..]);
  }

  /** Rows come in record order: the table of two batches is the rows of the
      first followed by the rows of the second. */
  lemma RowsInOrder(a: seq<StringRecord>, b: seq<StringRecord>)
    ensures Elements("tr", Rows(a + b)) == Elements("tr", Rows(a)) + Elements("tr", Rows(b))
  {
    assert Rows(a + b) == Rows(a) + Rows(b);
    ElementsConcat("tr", Rows(a), Rows(b));
  }

  /** Fields are copied verbatim: a field holding no markup reads back from
      its row unchanged, cell by cell. */
  lemma RowReadsBack(record: StringRecord)
    requires forall i :: 0 <= i < |record| ==> IsText(record[i])
    ensures ParseElements("td", RowBody(record)) == Some(record)
  {
    ParseElementsRoundTrip("td", record);
  }

  /** Nothing is escaped: a field that holds cell markup renders exactly as
      two separate fields would. */
  lemma NoEscaping()
    ensures RenderTable([["a</td><td>b"]]) == RenderTable([["a", "b"]])
  {
    var joined: StringRecord := ["a</td><td>b"];
    var split: StringRecord := ["a", "b"];
    assert RowBody(joined) == Element("td", "a</td><td>b") by {
      assert joined[1..] == [];
    }
    assert RowBody(split) == Element("td", "a") + Element("td", "b") by {
      assert split[1..] == ["b"];
      assert split[1..][1..] == [];
    }
    assert RowBody(joined) == RowBody(split);
    assert Rows([joined]) == Rows([split]);
  }
}
