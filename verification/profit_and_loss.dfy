/** The realized profit/loss record of
    `src/services/profit_and_loss/profit_and_loss.rs`: thirteen optional
    fields, built from a raw row at fixed columns, listed as name/value pairs,
    and a totals row that holds the one arithmetic rule of the program, the
    tax withheld on the taxable (specific) account. */
module ProfitAndLossRecord {
  import opened Wrappers
  import opened Numbers
  import opened Dates
  import opened Common

  /** The configured tax rate, a fraction between 0 and 1. */
  type Rate = r: real | 0.0 <= r <= 1.0

  datatype ProfitAndLoss = ProfitAndLoss(
    tradeDate: Option<NaiveDate>,
    settlementDate: Option<NaiveDate>,
    securityCode: Option<string>,
    securityName: Option<string>,
    account: Option<string>,
    shares: Option<I32>,
    askedPrice: Option<F64>,
    proceeds: Option<I32>,
    purchasePrice: Option<F64>,
    realizedProfitAndLoss: Option<I32>,
    totalRealizedProfitAndLoss: Option<I32>,
    withholdingTax: Option<U32>,
    profitAndLoss: Option<I32>)

  /** The field names, in the order `get_all_fields` lists them. */
  const FieldNames: seq<string> := [
    "trade_date", "settlement_date", "security_code", "security_name", "account",
    "shares", "asked_price", "proceeds", "purchase_price", "realized_profit_and_loss",
    "total_realized_profit_and_loss", "withholding_tax", "profit_and_loss"]

  /** The ten per-trade fields are all absent. */
  predicate DataFieldsAbsent(p: ProfitAndLoss) {
    && p.tradeDate.None? && p.settlementDate.None? && p.securityCode.None?
    && p.securityName.None? && p.account.None? && p.shares.None?
    && p.askedPrice.None? && p.proceeds.None? && p.purchasePrice.None?
    && p.realizedProfitAndLoss.None?
  }

  /** The three total fields are all absent. */
  predicate TotalsAbsent(p: ProfitAndLoss) {
    p.totalRealizedProfitAndLoss.None? && p.withholdingTax.None? && p.profitAndLoss.None?
  }

  /** `ProfitAndLoss::new`: a record with nothing in it, which renders as
      thirteen empty values. */
  function New(): (p: ProfitAndLoss)
    ensures DataFieldsAbsent(p) && TotalsAbsent(p)
    ensures forall i :: 0 <= i < |GetAllFields(p)| ==> GetAllFields(p)[i].1.None?
  {
    ProfitAndLoss(None, None, None, None, None, None, None, None, None, None, None, None, None)
  }

  /** `from_record`: columns 0 and 1 are dates, 2 to 4 text, 7, 9 and 11
      integers, 8 and 10 floats; columns 5 and 6 are never read, and a data
      row never carries totals. */
  function FromRecord(record: StringRecord, parseF64: string -> Option<F64>): (p: ProfitAndLoss)
    ensures TotalsAbsent(p)
  {
    ProfitAndLoss(
      ParseDate(Get(record, 0)),
      ParseDate(Get(record, 1)),
      ParseString(Get(record, 2)),
      ParseString(Get(record, 3)),
      ParseString(Get(record, 4)),
      ParseInt(Get(record, 7)),
      ParseFloat(Get(record, 8), parseF64),
      ParseInt(Get(record, 9)),
      ParseFloat(Get(record, 10), parseF64),
      ParseInt(Get(record, 11)),
      None, None, None)
  }

  /** Columns 5 and 6 do not matter. */
  lemma FromRecordIgnoresColumns5And6(record: StringRecord, i: nat, v: string, parseF64: string -> Option<F64>)
    requires i == 5 || i == 6
    requires i < |record|
    ensures FromRecord(record[i := v], parseF64) == FromRecord(record, parseF64)
  {
  }

  /** Columns after the twelfth are never read. */
  lemma FromRecordReadsTwelveColumns(record: StringRecord, parseF64: string -> Option<F64>)
    requires |record| >= 12
    ensures FromRecord(record, parseF64) == FromRecord(record[..12], parseF64)
  {
  }

  /** `get_all_fields`: thirteen pairs whose names never depend on the values. */
  function GetAllFields(p: ProfitAndLoss): (fields: Fields)
    ensures |fields| == 13
    ensures Names(fields) == FieldNames
  {
    [ ("trade_date", ShowDate(p.tradeDate)),
      ("settlement_date", ShowDate(p.settlementDate)),
      ("security_code", p.securityCode),
      ("security_name", p.securityName),
      ("account", p.account),
      ("shares", ShowInt(p.shares)),
      ("asked_price", ShowF64(p.askedPrice)),
      ("proceeds", ShowInt(p.proceeds)),
      ("purchase_price", ShowF64(p.purchasePrice)),
      ("realized_profit_and_loss", ShowInt(p.realizedProfitAndLoss)),
      ("total_realized_profit_and_loss", ShowInt(p.totalRealizedProfitAndLoss)),
      ("withholding_tax", ShowInt(p.withholdingTax)),
      ("profit_and_loss", ShowInt(p.profitAndLoss)) ]
  }

  /** Reads a rendered field list back into a record: the inverse of
      `GetAllFields`. */
  function FromFields(fields: Fields): ProfitAndLoss
    requires |fields| == 13
  {
    ProfitAndLoss(
      ReadDate(fields[0].1), ReadDate(fields[1].1), fields[2].1, fields[3].1,
      fields[4].1, ReadI32(fields[5].1), ReadF64(fields[6].1), ReadI32(fields[7].1),
      ReadF64(fields[8].1), ReadI32(fields[9].1), ReadI32(fields[10].1),
      ReadU32(fields[11].1), ReadI32(fields[12].1))
  }

  /** Round trip: the field list loses nothing, since reading the listed
      values back gives the record. */
  lemma FieldsRoundTrip(p: ProfitAndLoss)
    ensures FromFields(GetAllFields(p)) == p
  {
    var fields := GetAllFields(p);
    var q := FromFields(fields);
    ShowDateRoundTrip(p.tradeDate);
    ShowDateRoundTrip(p.settlementDate);
    assert q.tradeDate == p.tradeDate && q.settlementDate == p.settlementDate;
    ShowI32RoundTrip(p.shares);
    ShowI32RoundTrip(p.proceeds);
    ShowI32RoundTrip(p.realizedProfitAndLoss);
    assert q.shares == p.shares && q.proceeds == p.proceeds;
    assert q.realizedProfitAndLoss == p.realizedProfitAndLoss;
    ShowI32RoundTrip(p.totalRealizedProfitAndLoss);
    ShowI32RoundTrip(p.profitAndLoss);
    ShowU32RoundTrip(p.withholdingTax);
    assert q.totalRealizedProfitAndLoss == p.totalRealizedProfitAndLoss;
    assert q.profitAndLoss == p.profitAndLoss && q.withholdingTax == p.withholdingTax;
    assert q.askedPrice == p.askedPrice && q.purchasePrice == p.purchasePrice;
  }

  /** Two's-complement wrap-around of i32 arithmetic (a release build). */
  function WrapI32(x: int): (r: I32)
    ensures IsI32(x) ==> r == x
    ensures (r - x) % 0x1_0000_0000 == 0
  {
    (x - MinI32) % 0x1_0000_0000 + MinI32
  }

  /** The tax withheld on the specific-account total: nothing on a loss,
      otherwise the product with the rate truncated toward zero (the source's
      `as u32` cast; the operand is never negative there, so this is the floor). */
  function Withholding(specific: I32, rate: Rate): (w: U32)
    ensures specific < 0 ==> w == 0
    ensures specific >= 0 ==> w <= specific
    ensures specific >= 0 ==> w as real <= specific as real * rate < w as real + 1.0
  {
    if specific < 0 then 0
    else
      var product := specific as real * rate;
      assert product <= specific as real by {
        assert specific as real * rate <= specific as real * 1.0;
      }
      product.Floor
  }

  /** `new_total_realized_profit_and_loss`: a totals row with the combined
      total, the withholding and the net; every per-trade field absent. */
  function NewTotalRealizedProfitAndLoss(totals: (I32, I32), rate: Rate): (p: ProfitAndLoss)
    ensures DataFieldsAbsent(p)
    ensures p.withholdingTax == Some(Withholding(totals.0, rate))
    ensures p.totalRealizedProfitAndLoss == Some(WrapI32(totals.0 + totals.1))
    ensures p.profitAndLoss == Some(WrapI32(WrapI32(totals.0 + totals.1) - Withholding(totals.0, rate)))
  {
    var (specific, nisa) := totals;
    var withholding := Withholding(specific, rate);
    var total := WrapI32(specific + nisa);
    ProfitAndLoss(None, None, None, None, None, None, None, None, None, None,
      Some(total), Some(withholding), Some(WrapI32(total - withholding)))
  }

  /** When the sum fits in an i32: the total is the sum of both accounts, the
      net is the total less the withholding, the tax-advantaged (NISA) total
      is never taxed, and a loss on the specific account is never taxed. */
  lemma TotalsArithmetic(specific: I32, nisa: I32, rate: Rate)
    requires IsI32(specific + nisa)
    ensures var p := NewTotalRealizedProfitAndLoss((specific, nisa), rate);
      && p.totalRealizedProfitAndLoss == Some(specific + nisa)
      && p.profitAndLoss == Some(specific + nisa - p.withholdingTax.value)
      && (specific < 0 ==> p.profitAndLoss == Some(specific + nisa))
      && (specific >= 0 ==> nisa <= p.profitAndLoss.value <= specific + nisa)
  {
    var w := Withholding(specific, rate);
    assert IsI32(specific + nisa - w);
  }
}
