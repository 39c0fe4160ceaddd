/** The table header shared by every report: the trait's
    `generate_table_header` in `src/services/templete.rs` and the header half
    of each manager's `generate_html_table`. Each writes one `<th>` per field
    name holding that name's display label from the label table; a name with
    no label is fatal (the source's `unwrap` panics) and the raw name is never
    put in its place. */
module TableHeader {
  import opened Wrappers
  import opened Errors
  import opened Common
  import opened Markup

  const TableOpen: string := "<table><thead><tr>"

  /** How `generate_table_header` ends the header. */
  const HeadClose: string := "</tr></thead>"

  /** How the managers end the header: they also open the body. */
  const HeadCloseOpenBody: string := "</tr></thead><tbody>"

  predicate AllLabelled(names: seq<string>, labels: map<string, string>) {
    forall i :: 0 <= i < |names| ==> names[i] in labels
  }

  /** The position of the first name without a label, or |names|. */
  function FirstUnlabelled(names: seq<string>, labels: map<string, string>): (k: nat)
    ensures k <= |names|
    ensures forall i :: 0 <= i < k ==> names[i] in labels
    ensures k < |names| ==> names[k] !in labels
  {
    if names == [] || names[0] !in labels then 0
    else 1 + FirstUnlabelled(names[1..], labels)
  }

  /** The label of each name, in order. */
  function LabelsOf(names: seq<string>, labels: map<string, string>): (ls: seq<string>)
    requires AllLabelled(names, labels)
    ensures |ls| == |names|
    ensures forall i :: 0 <= i < |names| ==> ls[i] == labels[names[i]]
  {
    seq(|names|, i requires 0 <= i < |names| => labels[names[i]])
  }

  /** The header table for these names: the opening tags, one `<th>` per name,
      then `close`; or the first name that has no label. */
  function HeaderTable(names: seq<string>, labels: map<string, string>, close: string): Result<string, ReportError>
  {
    var k := FirstUnlabelled(names, labels);
    if k < |names| then Err(MissingLabel(names[k]))
    else Ok(TableOpen + Elements("th", LabelsOf(names, labels)) + close)
  }

  /** The loop all three header writers share: start from the opening tags,
      `push_str` one `<th>` per name, stop at the first missing label. */
  method BuildHeader(names: seq<string>, labels: map<string, string>, close: string)
    returns (r: Result<string, ReportError>)
    ensures r == HeaderTable(names, labels, close)
  {
    var table := TableOpen;
    var i := 0;
    while i < |names|
      invariant 0 <= i <= |names|
      invariant AllLabelled(names[..i], labels)
      invariant table == TableOpen + Elements("th", LabelsOf(names[..i], labels))
    {
      var name := names[i];
      if name !in labels {
        assert FirstUnlabelled(names, labels) == i by {
          assert forall j :: 0 <= j < i ==> names[j] == names[..i][j];
        }
        return Err(MissingLabel(name));
      }
      var text := labels[name];
      assert names[..i + 1] == names[..i] + [name];
      assert LabelsOf(names[..i + 1], labels) == LabelsOf(names[..i], labels) + [text];
      ElementsExtend(TableOpen, "th", LabelsOf(names[..i], labels), text);
      table := table + Element("th", text);
      i := i + 1;
    }
    assert names[..i] == names;
    table := table + close;
    return Ok(table);
  }

  /** `generate_table_header`: the value half of each pair is ignored. */
  method GenerateTableHeader(headers: Fields, labels: map<string, string>)
    returns (r: Result<string, ReportError>)
    ensures r == HeaderTable(Names(headers), labels, HeadClose)
  {
    r := BuildHeader(Names(headers), labels, HeadClose);
  }

  /** The header is written exactly when every name has a label; otherwise it
      fails on a name that has none. */
  lemma HeaderTableFailsOnlyOnMissingLabel(names: seq<string>, labels: map<string, string>, close: string)
    ensures HeaderTable(names, labels, close).Ok? <==> AllLabelled(names, labels)
    ensures HeaderTable(names, labels, close).Err? ==>
      exists i :: 0 <= i < |names| && names[i] !in labels &&
        HeaderTable(names, labels, close).error == MissingLabel(names[i])
  {
    var k := FirstUnlabelled(names, labels);
    if k < |names| {
      assert !AllLabelled(names, labels);
    }
  }

  /** Reading the header back: it starts with the opening tags, ends with
      `close`, and between them holds one `<th>` per name whose text is that
      name's label, in the given order, when no label contains markup. */
  lemma HeaderTableReadsBack(names: seq<string>, labels: map<string, string>, close: string)
    requires AllLabelled(names, labels)
    requires forall i :: 0 <= i < |names| ==> IsText(labels[names[i]])
    ensures HeaderTable(names, labels, close).Ok?
    ensures var h := HeaderTable(names, labels, close).value;
      && |TableOpen| + |close| <= |h|
      && h[..|TableOpen|] == TableOpen
      && h[|h| - |close|..] == close
      && ParseElements("th", h[|TableOpen|..|h| - |close|]) == Some(LabelsOf(names, labels))
  {
    HeaderTableFailsOnlyOnMissingLabel(names, labels, close);
    var cells := Elements("th", LabelsOf(names, labels));
    var h := TableOpen + cells + close;
    assert HeaderTable(names, labels, close).value == h;
    assert h[|TableOpen|..|h| - |close|] == cells;
    ParseElementsRoundTrip("th", LabelsOf(names, labels));
  }

  /** Only the names matter: two field lists with the same names give the same
      header, whatever their values. */
  lemma HeaderIgnoresValues(h1: Fields, h2: Fields, labels: map<string, string>, close: string)
    requires |h1| == |h2|
    requires forall i :: 0 <= i < |h1| ==> h1[i].0 == h2[i].0
    ensures HeaderTable(Names(h1), labels, close) == HeaderTable(Names(h2), labels, close)
  {
    assert Names(h1) == Names(h2);
  }
}
