/** The dividend record of `src/services/dividend_list/dividend_list.rs`:
    fourteen optional fields, built from a raw row at fixed columns, or as a
    synthetic totals row, and listed as name/value pairs for rendering. */
module DividendListRecord {
  import opened Wrappers
  import opened Numbers
  import opened Dates
  import opened Common

  datatype DividendList = DividendList(
    settlementDate: Option<NaiveDate>,
    product: Option<string>,
    account: Option<string>,
    securityCode: Option<string>,
    securityName: Option<string>,
    currency: Option<string>,
    unitPrice: Option<string>,
    shares: Option<I32>,
    dividendsBeforeTax: Option<I32>,
    taxes: Option<I32>,
    netAmountReceived: Option<I32>,
    totalDividendsBeforeTax: Option<I32>,
    totalTaxes: Option<I32>,
    totalNetAmountReceived: Option<I32>)

  /** The field names, in the order `get_all_fields` lists them. */
  const FieldNames: seq<string> := [
    "settlement_date", "product", "account", "security_code", "security_name",
    "currency", "unit_price", "shares", "dividends_before_tax", "taxes",
    "net_amount_received", "total_dividends_before_tax", "total_taxes",
    "total_net_amount_received"]

  /** The eleven per-row fields are all absent. */
  predicate DataFieldsAbsent(d: DividendList) {
    && d.settlementDate.None? && d.product.None? && d.account.None?
    && d.securityCode.None? && d.securityName.None? && d.currency.None?
    && d.unitPrice.None? && d.shares.None? && d.dividendsBeforeTax.None?
    && d.taxes.None? && d.netAmountReceived.None?
  }

  /** The three total fields are all absent. */
  predicate TotalsAbsent(d: DividendList) {
    d.totalDividendsBeforeTax.None? && d.totalTaxes.None? && d.totalNetAmountReceived.None?
  }

  /** `DividendList::new`: a record with nothing in it, which renders as
      fourteen empty values. */
  function New(): (d: DividendList)
    ensures DataFieldsAbsent(d) && TotalsAbsent(d)
    ensures forall i :: 0 <= i < |GetAllFields(d)| ==> GetAllFields(d)[i].1.None?
  {
    DividendList(None, None, None, None, None, None, None, None, None, None, None, None, None, None)
  }

  /** `new_total_dividend_list`: a totals row carrying exactly the three sums. */
  function NewTotalDividendList(totals: (I32, I32, I32)): (d: DividendList)
    ensures DataFieldsAbsent(d)
    ensures d.totalDividendsBeforeTax == Some(totals.0)
    ensures d.totalTaxes == Some(totals.1)
    ensures d.totalNetAmountReceived == Some(totals.2)
  {
    DividendList(None, None, None, None, None, None, None, None, None, None, None,
      Some(totals.0), Some(totals.1), Some(totals.2))
  }

  /** `from_record`: column 0 is the date, columns 1 to 6 are text, columns 7
      to 10 are integers; a data row never carries totals. */
  function FromRecord(record: StringRecord): (d: DividendList)
    ensures TotalsAbsent(d)
  {
    DividendList(
      ParseDate(Get(record, 0)),
      ParseString(Get(record, 1)),
      ParseString(Get(record, 2)),
      ParseString(Get(record, 3)),
      ParseString(Get(record, 4)),
      ParseString(Get(record, 5)),
      ParseString(Get(record, 6)),
      ParseInt(Get(record, 7)),
      ParseInt(Get(record, 8)),
      ParseInt(Get(record, 9)),
      ParseInt(Get(record, 10)),
      None, None, None)
  }

  /** `get_all_fields`: fourteen pairs whose names never depend on the values. */
  function GetAllFields(d: DividendList): (fields: Fields)
    ensures |fields| == 14
    ensures Names(fields) == FieldNames
  {
    [ ("settlement_date", ShowDate(d.settlementDate)),
      ("product", d.product),
      ("account", d.account),
      ("security_code", d.securityCode),
      ("security_name", d.securityName),
      ("currency", d.currency),
      ("unit_price", d.unitPrice),
      ("shares", ShowInt(d.shares)),
      ("dividends_before_tax", ShowInt(d.dividendsBeforeTax)),
      ("taxes", ShowInt(d.taxes)),
      ("net_amount_received", ShowInt(d.netAmountReceived)),
      ("total_dividends_before_tax", ShowInt(d.totalDividendsBeforeTax)),
      ("total_taxes", ShowInt(d.totalTaxes)),
      ("total_net_amount_received", ShowInt(d.totalNetAmountReceived)) ]
  }

  /** Reads a rendered field list back into a record: the inverse of
      `GetAllFields`. */
  function FromFields(fields: Fields): DividendList
    requires |fields| == 14
  {
    DividendList(
      ReadDate(fields[0].1), fields[1].1, fields[2].1, fields[3].1, fields[4].1,
      fields[5].1, fields[6].1, ReadI32(fields[7].1), ReadI32(fields[8].1),
      ReadI32(fields[9].1), ReadI32(fields[10].1), ReadI32(fields[11].1),
      ReadI32(fields[12].1), ReadI32(fields[13].1))
  }

  /** Round trip: the field list loses nothing, since reading the listed
      values back gives the record. */
  lemma FieldsRoundTrip(d: DividendList)
    ensures FromFields(GetAllFields(d)) == d
  {
    ShowDateRoundTrip(d.settlementDate);
    ShowI32RoundTrip(d.shares);
    ShowI32RoundTrip(d.dividendsBeforeTax);
    ShowI32RoundTrip(d.taxes);
    ShowI32RoundTrip(d.netAmountReceived);
    ShowI32RoundTrip(d.totalDividendsBeforeTax);
    ShowI32RoundTrip(d.totalTaxes);
    ShowI32RoundTrip(d.totalNetAmountReceived);
  }

  /** Columns after the eleventh are never read. */
  lemma FromRecordReadsElevenColumns(record: StringRecord)
    requires |record| >= 11
    ensures FromRecord(record) == FromRecord(record[..11])
  {
  }

  /** A row too short to have the share column leaves only that field (and
      the ones after it) absent; the columns it has are read as usual. */
  lemma FromRecordMissingColumn(record: StringRecord, v: string)
    requires |record| == 7
    ensures FromRecord(record).shares.None?
    ensures FromRecord(record + [v]) == FromRecord(record).(shares := ParseInt(Some(v)))
  {
  }
}
