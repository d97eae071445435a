/** `renderTable` without the DOM: the CSV rows mapped onto the columns,
    filtered by the static and then the dynamic filters, grouped, sorted
    and totalled. */
module Pipeline {
  import opened Wrappers
  import opened Seqs
  import opened Csv
  import opened Dsl
  import opened Records
  import opened Store
  import opened Filters
  import opened Aggregation
  import opened Sorting
  import opened Totals

  /** The parts of a table's state the query engine reads. */
  datatype TableConfig = TableConfig(
    columns: seq<ColumnDef>,
    staticFilters: seq<StaticFilter>,
    aggMap: map<string, string>,
    groupBy: Option<string>,
    sort: SortState,
    sortTypes: seq<SortType>,
    bindings: seq<Binding>)

  /** The mapped rows that pass both filter stages, in source order. */
  function Visible(config: TableConfig, source: CsvTable, controls: map<string, string>): (r: seq<MappedRow>)
    ensures |r| <= |source.rows|
  {
    var mapped := MapRows(HeaderIndex(source.headers), config.columns, source.rows);
    ApplyDynamicFilters(config.bindings, controls, ApplyStaticFilters(config.staticFilters, mapped))
  }

  /** Whether a CSV row passes every static filter and matches every
      control that has a value, both read from the row's own cells. */
  predicate Shown(config: TableConfig, source: CsvTable, controls: map<string, string>, sourceRow: seq<string>) {
    var index := HeaderIndex(source.headers);
    && (forall f :: 0 <= f < |config.staticFilters| ==>
          FilterPasses(config.staticFilters[f], GetRowSourceValue(index, sourceRow, config.staticFilters[f].column)))
    && (forall b :: 0 <= b < |config.bindings| && Selection(controls, config.bindings[b]).Some? ==>
          GetRowSourceValue(index, sourceRow, config.bindings[b].column) == Selection(controls, config.bindings[b]).value)
  }

  /** A row is visible exactly when it is the mapping of a CSV row that is
      shown. */
  lemma {:induction false} VisibleMembers(config: TableConfig, source: CsvTable, controls: map<string, string>, row: MappedRow)
    ensures row in Visible(config, source, controls) <==>
            exists i :: 0 <= i < |source.rows| && row == MapRow(HeaderIndex(source.headers), config.columns, source.rows[i])
                        && Shown(config, source, controls, source.rows[i])
  {
    var index := HeaderIndex(source.headers);
    var mapped := MapRows(index, config.columns, source.rows);
    var passed := ApplyStaticFilters(config.staticFilters, mapped);
    StaticStageMembers(config.staticFilters, mapped, row);
    DynamicStageMembers(config.bindings, controls, passed, row);
    if row in Visible(config, source, controls) {
      var i :| 0 <= i < |mapped| && mapped[i] == row;
      assert row == MapRow(index, config.columns, source.rows[i]);
      assert Shown(config, source, controls, source.rows[i]);
    }
    if exists i :: 0 <= i < |source.rows| && row == MapRow(index, config.columns, source.rows[i])
                   && Shown(config, source, controls, source.rows[i]) {
      var i :| 0 <= i < |source.rows| && row == MapRow(index, config.columns, source.rows[i])
               && Shown(config, source, controls, source.rows[i]);
      assert mapped[i] == row;
    }
  }

  /** The visible rows as they leave an ungrouped grouping stage. */
  function Ungrouped(rows: seq<MappedRow>): (r: seq<OutRow>)
    ensures |r| == |rows|
  {
    seq(|rows|, i requires 0 <= i < |rows| => Lift(rows[i], Some(false)))
  }

  /** `renderTable` up to the summary it records: the rows shown, in
      order, and their totals. */
  method Render(env: Env, config: TableConfig, source: CsvTable, controls: map<string, string>)
    returns (rows: seq<OutRow>, totals: Totals)
    ensures |rows| <= |source.rows|
    ensures |totals.rowTotals| == |rows| && totals.grandRowTotal == SumReals(totals.rowTotals)
    ensures forall i :: 0 <= i < |rows| ==> totals.rowTotals[i] == RowTotal(env, config.columns, rows[i])
    ensures config.groupBy.None? ==> multiset(rows) == multiset(Ungrouped(Visible(config, source, controls)))
    ensures config.groupBy.None? && !SortActive(config.columns, config.sort, rows) ==>
              rows == Ungrouped(Visible(config, source, controls))
    ensures config.groupBy.Some? && config.groupBy.value != "" && FindGroupColumn(config.columns, config.groupBy.value).Some? ==>
              var groupKey := config.columns[FindGroupColumn(config.columns, config.groupBy.value).value].key;
              |rows| == |Distinct(RowKeys(Visible(config, source, controls), groupKey))|
  {
    var visible := Visible(config, source, controls);
    var grouped := GroupAndAggregate(env, config.columns, config.aggMap, config.groupBy, visible);
    if config.groupBy.Some? && config.groupBy.value != "" && FindGroupColumn(config.columns, config.groupBy.value).Some? {
      OneRowPerDistinctKey(env, config.columns, config.aggMap, config.groupBy.value, visible);
    }
    rows := ApplySort(env, config.columns, config.sortTypes, config.sort, grouped);
    totals := ComputeTotals(env, config.columns, rows);
  }
}
