/** `create_factory` of `src/services/factroy.rs`: the report id chooses a
    fresh manager; any other id stops the program (`panic!`), which the model
    reports as an error. */
module Factory {
  import opened Wrappers
  import opened Errors
  import opened Template
  import opened ProfitAndLossLib
  import opened DividendListLib

  datatype ReportKind = DividendReport | ProfitLossReport

  /** The kind a report id names, compared exactly (no case folding, no
      trimming). */
  function KindOf(id: string): (k: Option<ReportKind>)
    ensures k == Some(DividendReport) <==> id == "dividend"
    ensures k == Some(ProfitLossReport) <==> id == "profit-loss"
    ensures k == None <==> id != "dividend" && id != "profit-loss"
  {
    if id == "dividend" then Some(DividendReport)
    else if id == "profit-loss" then Some(ProfitLossReport)
    else None
  }

  function KindOfManager(m: Manager): ReportKind {
    match m
    case Dividend(_) => DividendReport
    case ProfitLoss(_) => ProfitLossReport
  }

  /** `create_factory`: a newly made manager of the named kind with an empty
      map, or an error naming the unknown id. */
  method CreateFactory(id: string) returns (r: Result<Manager, ReportError>)
    ensures r.Ok? <==> KindOf(id).Some?
    ensures r.Err? ==> r.error == UnknownId(id)
    ensures r.Ok? ==> KindOfManager(r.value) == KindOf(id).value && Valid(r.value) && fresh(Repr(r.value))
    ensures r.Ok? && r.value.Dividend? ==> r.value.d.dividendListMap == map[]
    ensures r.Ok? && r.value.ProfitLoss? ==> r.value.p.profitAndLossMap == map[]
  {
    if id == "dividend" {
      var d := new DividendListManager();
      r := Ok(Dividend(d));
    } else if id == "profit-loss" {
      var p := new ProfitAndLossManager();
      r := Ok(ProfitLoss(p));
    } else {
      r := Err(UnknownId(id));
    }
  }

  /** Ids that differ from the two known ones in case or surrounding space
      are unknown; there is no default kind. */
  lemma KindOfIsExact()
    ensures KindOf("Dividend") == None
    ensures KindOf("dividend ") == None
    ensures KindOf(" profit-loss") == None
    ensures KindOf("Profit-Loss") == None
    ensures KindOf("profit_loss") == None
    ensures KindOf("") == None
  {
    assert "Dividend"[0] != "dividend"[0];
    assert "Profit-Loss"[0] != "profit-loss"[0];
    assert "profit_loss"[6] != "profit-loss"[6];
  }

  /** Prefixing any text to a known id makes it unknown. */
  lemma KindOfRejectsPrefixed(pad: string, id: string)
    requires pad != []
    requires KindOf(id).Some?
    ensures KindOf(pad + id).None?
  {
    var s := pad + id;
    assert s[|pad|..] == id;
    assert "profit-loss"[3..] == "fit-loss";
  }
}
