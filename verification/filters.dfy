/** The filter engine: the static filters of a table and the dynamic
    filters bound to select controls. */
module Filters {
  import opened Wrappers
  import opened Seqs
  import opened Strings
  import opened Dsl
  import opened Records
  import opened Store

  /** One static filter on the value it reads: `contains` is a substring
      test after lower-casing both sides. */
  predicate FilterPasses(f: StaticFilter, value: string) {
    match f.op
    case Equal => value == f.value
    case NotEqual => value != f.value
    case ContainsText => Contains(ToLower(value), ToLower(f.value))
  }

  /** The loop of `staticFilterPredicate`: the filters are tried in order
      and the first one that fails rejects; `lookup` reads a header's value
      from the row. */
  predicate StaticAccepts(filters: seq<StaticFilter>, lookup: string -> string) {
    if |filters| == 0 then true
    else if !FilterPasses(filters[0], lookup(filters[0].column)) then false
    else StaticAccepts(filters[1..], lookup)
  }

  /** A row passes the static filters exactly when it passes every one of
      them; in particular no filters accept every row. */
  lemma {:induction false} StaticAcceptsAll(filters: seq<StaticFilter>, lookup: string -> string)
    ensures StaticAccepts(filters, lookup) <==> forall i :: 0 <= i < |filters| ==> FilterPasses(filters[i], lookup(filters[i].column))
  {
    if |filters| > 0 {
      StaticAcceptsAll(filters[1..], lookup);
      assert forall i :: 1 <= i < |filters| ==> filters[i] == filters[1..][i - 1];
    }
  }

  /** The intended reading of a filter's column: the row's raw cell under
      that header, taken from `_source`. */
  function SourceLookup(row: MappedRow): string -> string {
    h => SourceText(row, h)
  }

  /** The static predicate applied to a mapped row, reading `_source`. */
  predicate StaticPredicate(filters: seq<StaticFilter>, row: MappedRow) {
    StaticAccepts(filters, SourceLookup(row))
  }

  /** The reading `getRowSourceValue` performs when the static
      predicate receives a mapped row: the header's position, as a property
      name, looked up among the mapped row's own properties. */
  function AsWrittenLookup(index: map<string, nat>, row: MappedRow): string -> string {
    h => if h in index then FieldText(row, NatToString(index[h])) else ""
  }

  /** The static predicate as `renderTable` applies it to mapped rows. */
  predicate StaticPredicateAsWritten(filters: seq<StaticFilter>, index: map<string, nat>, row: MappedRow) {
    StaticAccepts(filters, AsWrittenLookup(index, row))
  }

  /** The static filter stage: the rows the predicate accepts, in order. */
  function ApplyStaticFilters(filters: seq<StaticFilter>, rows: seq<MappedRow>): (r: seq<MappedRow>)
    ensures |r| <= |rows|
    ensures |filters| == 0 ==> r == rows
  {
    var accept := (row: MappedRow) => StaticPredicate(filters, row);
    if |filters| == 0 then
      FilterAll(rows, accept);
      Filter(rows, accept)
    else Filter(rows, accept)
  }

  /** A row survives the static stage exactly when it is one of the input
      rows and passes every filter on its raw cells. */
  lemma {:induction false} StaticStageMembers(filters: seq<StaticFilter>, rows: seq<MappedRow>, row: MappedRow)
    ensures row in ApplyStaticFilters(filters, rows) <==>
            row in rows && forall i :: 0 <= i < |filters| ==> FilterPasses(filters[i], SourceText(row, filters[i].column))
  {
    FilterMembers(rows, (row: MappedRow) => StaticPredicate(filters, row), row);
    StaticAcceptsAll(filters, SourceLookup(row));
  }

  /** On a mapped row, the intended predicate tests each filter against the
      CSV cell under the filter's column. */
  lemma {:induction false} StaticPredicateReadsSource(filters: seq<StaticFilter>, index: map<string, nat>, columns: seq<ColumnDef>, sourceRow: seq<string>)
    ensures StaticPredicate(filters, MapRow(index, columns, sourceRow)) <==>
            forall i :: 0 <= i < |filters| ==> FilterPasses(filters[i], GetRowSourceValue(index, sourceRow, filters[i].column))
  {
    StaticAcceptsAll(filters, SourceLookup(MapRow(index, columns, sourceRow)));
  }

  /** A non-empty string of decimal digits: the only property names the
      as-written lookup can hit. */
  predicate IsNumeral(k: string) {
    |k| > 0 && forall i :: 0 <= i < |k| ==> IsDigit(k[i])
  }

  /** Unless some column key is a numeral, the as-written predicate sees
      `""` for every column, so its verdict does not depend on the row. */
  lemma {:induction false} AsWrittenIgnoresRow(filters: seq<StaticFilter>, index: map<string, nat>, row: MappedRow)
    requires forall k :: k in row.fields ==> !IsNumeral(k)
    ensures StaticPredicateAsWritten(filters, index, row) <==>
            forall i :: 0 <= i < |filters| ==> FilterPasses(filters[i], "")
  {
    var lookup := AsWrittenLookup(index, row);
    StaticAcceptsAll(filters, lookup);
    forall h
      ensures lookup(h) == ""
    {
      if h in index {
        assert IsNumeral(NatToString(index[h]));
      }
    }
  }

  /** The smallest table that shows the difference: one header `Region`,
      one row `East`, the column `col1: Region` and the filter
      `Region=East`. The code drops the row; the intended predicate keeps
      it. */
  lemma {:induction false} AsWrittenDropsMatchingRow()
    ensures var index := HeaderIndex(["Region"]);
            var row := MapRow(index, [DefaultColumn("col1", "Region")], ["East"]);
            var filters := [StaticFilter("Region", Equal, "East")];
            !StaticPredicateAsWritten(filters, index, row) && StaticPredicate(filters, row)
  {
    var index := HeaderIndex(["Region"]);
    assert ["Region"][..0] == [];
    assert index == map["Region" := 0];
    var columns := [DefaultColumn("col1", "Region")];
    var row := MapRow(index, columns, ["East"]);
    assert columns[..0] == [];
    assert row.fields == map["col1" := "East"];
    assert NatToString(0) == "0";
    var filters := [StaticFilter("Region", Equal, "East")];
    assert AsWrittenLookup(index, row)("Region") == "";
    assert SourceLookup(row)("Region") == "East";
    StaticAcceptsAll(filters, AsWrittenLookup(index, row));
    StaticAcceptsAll(filters, SourceLookup(row));
  }

  /** A dynamic filter: the select control whose value constrains the row,
      and the CSV header it tests. */
  datatype Binding = Binding(select: string, column: string)

  /** The value a binding demands, if any: a missing control, `""` and
      `"All"` impose no constraint. `controls` maps control ids to their
      current values. */
  function Selection(controls: map<string, string>, b: Binding): Option<string> {
    if b.select !in controls then None
    else if controls[b.select] == "" || controls[b.select] == "All" then None
    else Some(controls[b.select])
  }

  /** The loop of `applyDynamicFilters` for one row. */
  predicate DynamicAccepts(bindings: seq<Binding>, controls: map<string, string>, row: MappedRow) {
    if |bindings| == 0 then true
    else
      match Selection(controls, bindings[0])
      case None => DynamicAccepts(bindings[1..], controls, row)
      case Some(v) => SourceText(row, bindings[0].column) == v && DynamicAccepts(bindings[1..], controls, row)
  }

  /** A row passes exactly when its raw cell equals the value of every
      binding that demands one. */
  lemma {:induction false} DynamicAcceptsAll(bindings: seq<Binding>, controls: map<string, string>, row: MappedRow)
    ensures DynamicAccepts(bindings, controls, row) <==>
            forall i :: 0 <= i < |bindings| && Selection(controls, bindings[i]).Some? ==>
              SourceText(row, bindings[i].column) == Selection(controls, bindings[i]).value
  {
    if |bindings| > 0 {
      DynamicAcceptsAll(bindings[1..], controls, row);
      assert forall i :: 1 <= i < |bindings| ==> bindings[i] == bindings[1..][i - 1];
    }
  }

  /** `applyDynamicFilters`. */
  function ApplyDynamicFilters(bindings: seq<Binding>, controls: map<string, string>, rows: seq<MappedRow>): (r: seq<MappedRow>)
    ensures |r| <= |rows|
  {
    if |bindings| == 0 then rows
    else Filter(rows, (row: MappedRow) => DynamicAccepts(bindings, controls, row))
  }

  /** When no control demands a value every row passes, in order. */
  lemma {:induction false} UnconstrainedKeepsAll(bindings: seq<Binding>, controls: map<string, string>, rows: seq<MappedRow>)
    requires forall i :: 0 <= i < |bindings| ==> Selection(controls, bindings[i]).None?
    ensures ApplyDynamicFilters(bindings, controls, rows) == rows
  {
    if |bindings| > 0 {
      forall j | 0 <= j < |rows|
        ensures DynamicAccepts(bindings, controls, rows[j])
      {
        DynamicAcceptsAll(bindings, controls, rows[j]);
      }
      FilterAll(rows, (row: MappedRow) => DynamicAccepts(bindings, controls, row));
    }
  }

  /** The dynamic stage only removes rows and keeps the order of the rest:
      it distributes over concatenation like a filter. */
  lemma {:induction false} DynamicStageOrder(bindings: seq<Binding>, controls: map<string, string>, a: seq<MappedRow>, b: seq<MappedRow>)
    ensures ApplyDynamicFilters(bindings, controls, a + b) ==
            ApplyDynamicFilters(bindings, controls, a) + ApplyDynamicFilters(bindings, controls, b)
  {
    if |bindings| > 0 {
      FilterAppend(a, b, (row: MappedRow) => DynamicAccepts(bindings, controls, row));
    }
  }

  /** A row survives the dynamic stage exactly when it is an input row that
      matches every constraining control. */
  lemma {:induction false} DynamicStageMembers(bindings: seq<Binding>, controls: map<string, string>, rows: seq<MappedRow>, row: MappedRow)
    ensures row in ApplyDynamicFilters(bindings, controls, rows) <==>
            row in rows && forall i :: 0 <= i < |bindings| && Selection(controls, bindings[i]).Some? ==>
              SourceText(row, bindings[i].column) == Selection(controls, bindings[i]).value
  {
    DynamicAcceptsAll(bindings, controls, row);
    if |bindings| > 0 {
      FilterMembers(rows, (row: MappedRow) => DynamicAccepts(bindings, controls, row), row);
    }
  }
}
