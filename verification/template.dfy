/** The `TemplateManager` pipeline of `src/services/templete.rs`: read the
    uploaded bytes into records, hand them to the manager, render its table.
    The two managers are the closed set of report kinds the factory makes. */
module Template {
  import opened Wrappers
  import opened Errors
  import opened Numbers
  import opened Common
  import opened Libraries
  import opened CsvAccessor
  import opened TableHeader
  import PL = ProfitAndLossRecord
  import opened ProfitAndLossLib
  import opened DividendListLib

  datatype Manager = Dividend(d: DividendListManager) | ProfitLoss(p: ProfitAndLossManager)

  /** The objects a manager owns. */
  function Repr(m: Manager): set<object> {
    match m
    case Dividend(d) => {d}
    case ProfitLoss(p) => {p}
  }

  ghost predicate Valid(m: Manager)
    reads Repr(m)
  {
    m.ProfitLoss? ==> m.p.Valid()
  }

  /** The records `read_csv_data` produces: the bytes decoded as Shift_JIS
      (any malformed byte fails the read), then every record after the
      header row, or the first bad record. */
  function CsvData(bytes: seq<byte>, libs: Libraries): Result<seq<StringRecord>, ReportError> {
    var decoded := libs.shiftJisDecode(bytes);
    if decoded.hadErrors then Err(DecodeError)
    else Collected(libs.csvRecords(decoded.text, true))
  }

  /** `read_csv_data`, which is the byte-slice `CSVAccessor::read`. */
  method ReadCsvData(bytes: seq<byte>, libs: Libraries) returns (r: Result<seq<StringRecord>, ReportError>)
    ensures r == CsvData(bytes, libs)
  {
    var decoded := libs.shiftJisDecode(bytes);
    if decoded.hadErrors {
      return Err(DecodeError);
    }
    r := CollectRecords(libs.csvRecords(decoded.text, true));
  }

  /** `execute`: read, then process, then render. A failed read is returned
      as it is and the manager is left untouched; the dividend manager's
      processing is not written, so it fails there; the profit/loss manager
      files the records and returns its header. */
  method Execute(m: Manager, bytes: seq<byte>, libs: Libraries, labels: map<string, string>)
    returns (r: Result<string, ReportError>)
    requires Valid(m)
    modifies Repr(m)
    ensures Valid(m)
    ensures CsvData(bytes, libs).Err? ==> r == Err(CsvData(bytes, libs).error) && unchanged(Repr(m))
    ensures CsvData(bytes, libs).Ok? && m.Dividend? ==> r == Err(NotImplemented) && unchanged(Repr(m))
    ensures CsvData(bytes, libs).Ok? && m.ProfitLoss? ==>
      && m.p.profitAndLossMap == InsertAll(old(m.p.profitAndLossMap), Ingested(CsvData(bytes, libs).value, libs.parseF64))
      && r == HeaderTable(PL.FieldNames, labels, HeadCloseOpenBody)
  {
    var records := ReadCsvData(bytes, libs);
    if records.Err? {
      return Err(records.error);
    }
    match m
    case Dividend(d) =>
      // `set` never returns normally (`todo!()`), so the table is never rendered.
      var processed := d.Set(records.value);
      r := Err(processed.error);
    case ProfitLoss(p) =>
      p.Set(records.value, libs.parseF64);
      r := p.GenerateHtmlTable(labels);
  }

  /** A read that fails to decode never reaches the tokenizer. */
  lemma CsvDataDecodeFailure(bytes: seq<byte>, libs: Libraries)
    requires libs.shiftJisDecode(bytes).hadErrors
    ensures CsvData(bytes, libs) == Err(DecodeError)
  {
  }

  /** A clean decode yields the tokenizer's records in order, with the header
      row consumed, or the first bad record. */
  lemma CsvDataRecords(bytes: seq<byte>, libs: Libraries)
    requires !libs.shiftJisDecode(bytes).hadErrors
    ensures var rs := libs.csvRecords(libs.shiftJisDecode(bytes).text, true);
      && (CsvData(bytes, libs).Ok? <==> forall i :: 0 <= i < |rs| ==> rs[i].Ok?)
      && (CsvData(bytes, libs).Ok? ==>
            |CsvData(bytes, libs).value| == |rs| &&
            forall i :: 0 <= i < |rs| ==> CsvData(bytes, libs).value[i] == rs[i].value)
  {
    CollectedSpec(libs.csvRecords(libs.shiftJisDecode(bytes).text, true));
  }
}
