/** `DividendListManager` of `src/services/dividend_list/lib.rs`. Its map is
    declared like the profit/loss one, but `set` is not written yet
    (`todo!()`), so nothing ever fills it; only the header is rendered. */
module DividendListLib {
  import opened Wrappers
  import opened Errors
  import opened Dates
  import opened Common
  import opened DividendListRecord
  import opened Markup
  import opened TableHeader

  class DividendListManager {
    var dividendListMap: map<NaiveDate, seq<DividendList>>

    /** `DividendListManager::new`: an empty map. */
    constructor ()
      ensures dividendListMap == map[]
    {
      dividendListMap := map[];
    }

    /** `set` stops the program (`todo!()`): the model reports that as an
        error and leaves the map as it was. */
    method Set(records: seq<StringRecord>) returns (r: Result<(), ReportError>)
      ensures r == Err(NotImplemented)
    {
      r := Err(NotImplemented);
    }

    /** `generate_html_table`: the header of the fourteen dividend fields,
        with the body opened; the map plays no part. */
    method GenerateHtmlTable(labels: map<string, string>) returns (r: Result<string, ReportError>)
      ensures r == HeaderTable(FieldNames, labels, HeadCloseOpenBody)
    {
      var headers := GetAllFields(New());
      r := BuildHeader(Names(headers), labels, HeadCloseOpenBody);
    }
  }

  /** The rendered header lists the fourteen labels, in field order, between
      the opening tags and the opened body. */
  lemma HtmlTableCells(labels: map<string, string>)
    requires forall i :: 0 <= i < |FieldNames| ==> FieldNames[i] in labels && IsText(labels[FieldNames[i]])
    ensures var r := HeaderTable(FieldNames, labels, HeadCloseOpenBody);
      && r.Ok?
      && var h := r.value;
      && |TableOpen| + |HeadCloseOpenBody| <= |h|
      && h[..|TableOpen|] == TableOpen
      && h[|h| - |HeadCloseOpenBody|..] == HeadCloseOpenBody
      && ParseElements("th", h[|TableOpen|..|h| - |HeadCloseOpenBody|]) == Some(LabelsOf(FieldNames, labels))
      && |LabelsOf(FieldNames, labels)| == 14
  {
    HeaderTableReadsBack(FieldNames, labels, HeadCloseOpenBody);
  }

  /** A dividend field without a label fails the header, naming that field;
      the raw field name is never shown in its place. */
  lemma HtmlTableMissingLabel(labels: map<string, string>, i: nat)
    requires i < |FieldNames| && FieldNames[i] !in labels
    ensures var r := HeaderTable(FieldNames, labels, HeadCloseOpenBody);
      r.Err? && r.error.MissingLabel? && r.error.name in FieldNames && r.error.name !in labels
  {
    HeaderTableFailsOnlyOnMissingLabel(FieldNames, labels, HeadCloseOpenBody);
  }
}
