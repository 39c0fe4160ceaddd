/** `ProfitAndLossManager` of `src/services/profit_and_loss/lib.rs`: an
    ordered map from trade date to the records traded that day, filled by
    `set` and rendered (header only) by `generate_html_table`. */
module ProfitAndLossLib {
  import opened Wrappers
  import opened Errors
  import opened Dates
  import opened Common
  import opened ProfitAndLossRecord
  import opened Markup
  import opened TableHeader

  type Groups = map<NaiveDate, seq<ProfitAndLoss>>

  /** Every record has a trade date. */
  predicate Dated(ps: seq<ProfitAndLoss>) {
    forall i :: 0 <= i < |ps| ==> ps[i].tradeDate.Some?
  }

  /** The map's shape: no key without records, and every record filed
      under its own trade date. */
  predicate WellGrouped(m: Groups) {
    forall d :: d in m ==> m[d] != [] && forall i :: 0 <= i < |m[d]| ==> m[d][i].tradeDate == Some(d)
  }

  /** The group of a date, empty when the key is absent. */
  function Group(m: Groups, d: NaiveDate): seq<ProfitAndLoss> {
    if d in m then m[d] else []
  }

  /** The records traded on `d`, in their original order. */
  function OnDate(ps: seq<ProfitAndLoss>, d: NaiveDate): (qs: seq<ProfitAndLoss>)
    ensures |qs| <= |ps|
    ensures forall i :: 0 <= i < |qs| ==> qs[i].tradeDate == Some(d) && qs[i] in ps
  {
    if ps == [] then []
    else
      var last := ps[|ps| - 1];
      OnDate(ps[..|ps| - 1], d) + (if last.tradeDate == Some(d) then [last] else [])
  }

  /** Each row read as a record, in row order. */
  function ReadRows(records: seq<StringRecord>, parseF64: string -> Option<F64>): (ps: seq<ProfitAndLoss>)
    ensures |ps| == |records|
    ensures forall i :: 0 <= i < |records| ==> ps[i] == FromRecord(records[i], parseF64)
  {
    MapRows(r => FromRecord(r, parseF64), records)
  }

  /** Each row mapped through `f`, in order. */
  function MapRows<T>(f: StringRecord -> T, records: seq<StringRecord>): (ts: seq<T>)
    ensures |ts| == |records|
    ensures forall i :: 0 <= i < |records| ==> ts[i] == f(records[i])
  {
    seq(|records|, i requires 0 <= i < |records| => f(records[i]))
  }

  lemma MapRowsAppend<T>(f: StringRecord -> T, r1: seq<StringRecord>, r2: seq<StringRecord>)
    ensures MapRows(f, r1 + r2) == MapRows(f, r1) + MapRows(f, r2)
  {
    var whole := MapRows(f, r1 + r2);
    var parts := MapRows(f, r1) + MapRows(f, r2);
    forall i | 0 <= i < |whole|
      ensures whole[i] == parts[i]
    {
      if i < |r1| {
        assert (r1 + r2)[i] == r1[i];
      } else {
        assert (r1 + r2)[i] == r2[i - |r1|];
      }
    }
  }

  /** The records that have a trade date, in their original order. */
  function KeepDated(ps: seq<ProfitAndLoss>): (qs: seq<ProfitAndLoss>)
    ensures |qs| <= |ps|
    ensures Dated(qs)
  {
    if ps == [] then []
    else
      var last := ps[|ps| - 1];
      KeepDated(ps[..|ps| - 1]) + (if last.tradeDate.Some? then [last] else [])
  }

  /** What the loop of `set` keeps from the rows: each row's record, in row
      order, dropping the ones whose trade date did not parse. */
  function Ingested(records: seq<StringRecord>, parseF64: string -> Option<F64>): (ps: seq<ProfitAndLoss>)
    ensures |ps| <= |records|
    ensures Dated(ps)
  {
    KeepDated(ReadRows(records, parseF64))
  }

  /** `entry(trade_date).or_insert_with(Vec::new).push(p)`. */
  function Insert(m: Groups, p: ProfitAndLoss): Groups
    requires p.tradeDate.Some?
  {
    var d := p.tradeDate.value;
    m[d := Group(m, d) + [p]]
  }

  /** Inserting each record in turn. */
  function InsertAll(m: Groups, ps: seq<ProfitAndLoss>): Groups
    requires Dated(ps)
  {
    if ps == [] then m else Insert(InsertAll(m, ps[..|ps| - 1]), ps[|ps| - 1])
  }

  /** The number of rows whose column 0 reads as a date. */
  function CountDated(records: seq<StringRecord>): nat {
    if records == [] then 0
    else CountDated(records[..|records| - 1]) + (if ParseDate(Get(records[|records| - 1], 0)).Some? then 1 else 0)
  }

  class ProfitAndLossManager {
    var profitAndLossMap: Groups

    ghost predicate Valid()
      reads this
    {
      WellGrouped(profitAndLossMap)
    }

    /** `ProfitAndLossManager::new`: an empty map. */
    constructor ()
      ensures Valid()
      ensures profitAndLossMap == map[]
    {
      profitAndLossMap := map[];
    }

    /** `set`, the manager's `process_records`: file every row that has a
        trade date under that date, after what is already there. */
    method Set(records: seq<StringRecord>, parseF64: string -> Option<F64>)
      requires Valid()
      modifies this
      ensures Valid()
      ensures profitAndLossMap == InsertAll(old(profitAndLossMap), Ingested(records, parseF64))
    {
      var i := 0;
      while i < |records|
        invariant 0 <= i <= |records|
        invariant WellGrouped(profitAndLossMap)
        invariant profitAndLossMap == InsertAll(old(profitAndLossMap), Ingested(records[..i], parseF64))
      {
        var p := FromRecord(records[i], parseF64);
        ghost var before := Ingested(records[..i], parseF64);
        IngestedStep(records, i, parseF64);
        if p.tradeDate.Some? {
          var d := p.tradeDate.value;
          var list := if d in profitAndLossMap then profitAndLossMap[d] else [];
          InsertAllStep(old(profitAndLossMap), before, p);
          InsertWellGrouped(profitAndLossMap, p);
          assert Insert(profitAndLossMap, p) == profitAndLossMap[d := list + [p]];
          profitAndLossMap := profitAndLossMap[d := list + [p]];
          assert Ingested(records[..i + 1], parseF64) == before + [p];
        } else {
          assert Ingested(records[..i + 1], parseF64) == before;
        }
        i := i + 1;
      }
      assert records[..i] == records;
    }

    /** `generate_html_table`: the header of the thirteen profit/loss fields,
        with the body opened; the stored records play no part. */
    method GenerateHtmlTable(labels: map<string, string>) returns (r: Result<string, ReportError>)
      ensures r == HeaderTable(FieldNames, labels, HeadCloseOpenBody)
    {
      var headers := GetAllFields(New());
      r := BuildHeader(Names(headers), labels, HeadCloseOpenBody);
    }
  }

  lemma KeepDatedSnoc(ps: seq<ProfitAndLoss>, p: ProfitAndLoss)
    ensures KeepDated(ps + [p]) == KeepDated(ps) + (if p.tradeDate.Some? then [p] else [])
  {
    assert (ps + [p])[..|ps|] == ps;
  }

  lemma ReadRowsSnoc(records: seq<StringRecord>, i: nat, parseF64: string -> Option<F64>)
    requires i < |records|
    ensures ReadRows(records[..i + 1], parseF64) == ReadRows(records[..i], parseF64) + [FromRecord(records[i], parseF64)]
  {
    assert records[..i + 1] == records[..i] + [records[i]];
    MapRowsAppend(r => FromRecord(r, parseF64), records[..i], [records[i]]);
  }

  lemma IngestedStep(records: seq<StringRecord>, i: nat, parseF64: string -> Option<F64>)
    requires i < |records|
    ensures var p := FromRecord(records[i], parseF64);
      Ingested(records[..i + 1], parseF64) == Ingested(records[..i], parseF64) + (if p.tradeDate.Some? then [p] else [])
  {
    ReadRowsSnoc(records, i, parseF64);
    KeepDatedSnoc(ReadRows(records[..i], parseF64), FromRecord(records[i], parseF64));
  }

  lemma InsertAllStep(m: Groups, ps: seq<ProfitAndLoss>, p: ProfitAndLoss)
    requires Dated(ps) && p.tradeDate.Some?
    ensures Dated(ps + [p])
    ensures InsertAll(m, ps + [p]) == Insert(InsertAll(m, ps), p)
  {
    assert (ps + [p])[..|ps|] == ps;
  }

  lemma InsertWellGrouped(m: Groups, p: ProfitAndLoss)
    requires WellGrouped(m) && p.tradeDate.Some?
    ensures WellGrouped(Insert(m, p))
  {
  }

  /** Inserting records adds each to the end of its own date's group and
      touches no other group; existing groups are extended, never replaced. */
  lemma {:induction false} InsertAllGroups(m: Groups, ps: seq<ProfitAndLoss>)
    requires Dated(ps)
    ensures forall d :: Group(InsertAll(m, ps), d) == Group(m, d) + OnDate(ps, d)
    ensures forall d :: d in InsertAll(m, ps) <==> d in m || OnDate(ps, d) != []
  {
    if ps != [] {
      var init := ps[..|ps| - 1];
      var last := ps[|ps| - 1];
      InsertAllGroups(m, init);
      forall d
        ensures Group(InsertAll(m, ps), d) == Group(m, d) + OnDate(ps, d)
        ensures d in InsertAll(m, ps) <==> d in m || OnDate(ps, d) != []
      {
        if last.tradeDate == Some(d) {
          assert OnDate(ps, d) == OnDate(init, d) + [last];
          assert Group(m, d) + OnDate(ps, d) == (Group(m, d) + OnDate(init, d)) + [last];
        } else {
          assert OnDate(ps, d) == OnDate(init, d);
        }
      }
    }
  }

  /** Inserting dated records keeps the map well grouped. */
  lemma InsertAllWellGrouped(m: Groups, ps: seq<ProfitAndLoss>)
    requires WellGrouped(m)
    requires Dated(ps)
    ensures WellGrouped(InsertAll(m, ps))
  {
    InsertAllGroups(m, ps);
    forall d | d in InsertAll(m, ps)
      ensures InsertAll(m, ps)[d] != []
      ensures forall i :: 0 <= i < |InsertAll(m, ps)[d]| ==> InsertAll(m, ps)[d][i].tradeDate == Some(d)
    {
      assert InsertAll(m, ps)[d] == Group(m, d) + OnDate(ps, d);
    }
  }

  /** A fresh manager after one `set`: a date is a key exactly when some row
      carries it, and its group is those rows' records in row order. */
  lemma GroupByTradeDate(records: seq<StringRecord>, parseF64: string -> Option<F64>, d: NaiveDate)
    ensures var m := InsertAll(map[], Ingested(records, parseF64));
      && (d in m <==> OnDate(Ingested(records, parseF64), d) != [])
      && (d in m ==> m[d] == OnDate(Ingested(records, parseF64), d))
  {
    InsertAllGroups(map[], Ingested(records, parseF64));
  }

  /** `set` is cumulative: two calls file the same records as one call on
      the rows of both. */
  lemma {:induction false} SetTwice(m: Groups, a: seq<ProfitAndLoss>, b: seq<ProfitAndLoss>)
    requires Dated(a) && Dated(b)
    ensures Dated(a + b)
    ensures InsertAll(InsertAll(m, a), b) == InsertAll(m, a + b)
  {
    if b == [] {
      assert a + b == a;
    } else {
      var init := b[..|b| - 1];
      SetTwice(m, a, init);
      assert (a + b)[..|a + b| - 1] == a + init;
    }
  }

  /** Filtering two batches keeps what filtering each keeps, in order. */
  lemma {:induction false} KeepDatedAppend(ps: seq<ProfitAndLoss>, qs: seq<ProfitAndLoss>)
    ensures KeepDated(ps + qs) == KeepDated(ps) + KeepDated(qs)
  {
    if qs == [] {
      assert ps + qs == ps;
    } else {
      var init := qs[..|qs| - 1];
      var last := qs[|qs| - 1];
      KeepDatedAppend(ps, init);
      assert ps + qs == (ps + init) + [last];
      KeepDatedSnoc(ps + init, last);
      KeepDatedSnoc(init, last);
      assert qs == init + [last];
    }
  }

  /** Reading rows in two batches keeps the same records as one batch. */
  lemma IngestedAppend(r1: seq<StringRecord>, r2: seq<StringRecord>, parseF64: string -> Option<F64>)
    ensures Ingested(r1 + r2, parseF64) == Ingested(r1, parseF64) + Ingested(r2, parseF64)
  {
    ReadRowsAppend(r1, r2, parseF64);
    KeepDatedAppend(ReadRows(r1, parseF64), ReadRows(r2, parseF64));
  }

  lemma ReadRowsAppend(r1: seq<StringRecord>, r2: seq<StringRecord>, parseF64: string -> Option<F64>)
    ensures ReadRows(r1 + r2, parseF64) == ReadRows(r1, parseF64) + ReadRows(r2, parseF64)
  {
    MapRowsAppend(r => FromRecord(r, parseF64), r1, r2);
  }

  /** The number of records `set` keeps is the number of rows whose first
      column reads as a date. */
  lemma {:induction false} IngestedCount(records: seq<StringRecord>, parseF64: string -> Option<F64>)
    ensures |Ingested(records, parseF64)| == CountDated(records)
  {
    if records != [] {
      var n := |records| - 1;
      IngestedCount(records[..n], parseF64);
      IngestedStep(records, n, parseF64);
      assert records[..n + 1] == records;
    }
  }

  lemma {:induction false} KeepDatedNone(ps: seq<ProfitAndLoss>)
    requires forall i :: 0 <= i < |ps| ==> ps[i].tradeDate.None?
    ensures KeepDated(ps) == []
  {
    if ps != [] {
      KeepDatedNone(ps[..|ps| - 1]);
    }
  }

  /** Rows whose first column is not a date are dropped without error. */
  lemma IngestedDropsUndated(records: seq<StringRecord>, parseF64: string -> Option<F64>)
    requires forall i :: 0 <= i < |records| ==> ParseDate(Get(records[i], 0)).None?
    ensures Ingested(records, parseF64) == []
  {
    KeepDatedNone(ReadRows(records, parseF64));
  }

  lemma {:induction false} KeepDatedAll(ps: seq<ProfitAndLoss>)
    requires Dated(ps)
    ensures KeepDated(ps) == ps
  {
    if ps != [] {
      KeepDatedAll(ps[..|ps| - 1]);
    }
  }

  /** When every row is dated, every row is kept, in order. */
  lemma IngestedKeepsDated(records: seq<StringRecord>, parseF64: string -> Option<F64>)
    requires forall i :: 0 <= i < |records| ==> ParseDate(Get(records[i], 0)).Some?
    ensures |Ingested(records, parseF64)| == |records|
    ensures forall i :: 0 <= i < |records| ==> Ingested(records, parseF64)[i] == FromRecord(records[i], parseF64)
  {
    KeepDatedAll(ReadRows(records, parseF64));
  }

  /** The rendered header lists the thirteen labels, in field order, between
      the opening tags and the opened body. */
  lemma HtmlTableCells(labels: map<string, string>)
    requires forall i :: 0 <= i < |FieldNames| ==> FieldNames[i] in labels && IsText(labels[FieldNames[i]])
    ensures var r := HeaderTable(FieldNames, labels, HeadCloseOpenBody);
      && r.Ok?
      && var h := r.value;
      && |TableOpen| + |HeadCloseOpenBody| <= |h|
      && ParseElements("th", h[|TableOpen|..|h| - |HeadCloseOpenBody|]) == Some(LabelsOf(FieldNames, labels))
      && |LabelsOf(FieldNames, labels)| == 13
  {
    HeaderTableReadsBack(FieldNames, labels, HeadCloseOpenBody);
  }
}
