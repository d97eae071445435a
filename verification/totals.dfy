/** `computeTotals`: per-column totals, one total per row and their grand
    total, plus the text a footer cell shows. */
module Totals {
  import opened Wrappers
  import opened Seqs
  import opened Dsl
  import opened Records

  datatype Totals = Totals(totals: map<string, real>, rowTotals: seq<real>, grandRowTotal: real)

  predicate IsNumber(col: ColumnDef) {
    col.kind == NumberColumn
  }

  /** `parseFloat(row[k])` with `NaN` (and a missing field) read as 0. */
  function CellNumber(env: Env, row: OutRow, k: string): real {
    if k in row.fields then ValueNumber(env, row.fields[k]).GetOr(0.0) else 0.0
  }

  /** The keys of the number columns. */
  function NumericKeys(columns: seq<ColumnDef>): set<string> {
    set j | 0 <= j < |columns| && IsNumber(columns[j]) :: columns[j].key
  }

  /** What each column adds to a row's total: its number when it is a
      number column shown in the row total, 0 otherwise. */
  function RowCells(env: Env, columns: seq<ColumnDef>, row: OutRow): (r: seq<real>)
    ensures |r| == |columns|
  {
    seq(|columns|, j requires 0 <= j < |columns| =>
      if IsNumber(columns[j]) && columns[j].showRowTotal then CellNumber(env, row, columns[j].key) else 0.0)
  }

  function RowTotal(env: Env, columns: seq<ColumnDef>, row: OutRow): real {
    SumReals(RowCells(env, columns, row))
  }

  /** What each column adds to the total kept under key `k`: every number
      column with that key adds the row's value for `k`. */
  function Contributions(env: Env, columns: seq<ColumnDef>, row: OutRow, k: string): (r: seq<real>)
    ensures |r| == |columns|
  {
    seq(|columns|, j requires 0 <= j < |columns| =>
      if IsNumber(columns[j]) && columns[j].key == k then CellNumber(env, row, k) else 0.0)
  }

  /** What each row adds to the total kept under key `k`. */
  function RowKeyTotals(env: Env, columns: seq<ColumnDef>, rows: seq<OutRow>, k: string): (r: seq<real>)
    ensures |r| == |rows|
  {
    seq(|rows|, i requires 0 <= i < |rows| => SumReals(Contributions(env, columns, rows[i], k)))
  }

  /** The reference total for key `k`: the contributions of every row. */
  function KeyTotal(env: Env, columns: seq<ColumnDef>, rows: seq<OutRow>, k: string): real {
    SumReals(RowKeyTotals(env, columns, rows, k))
  }

  lemma {:induction false} SumPrefixStep(s: seq<real>, j: nat)
    requires j < |s|
    ensures SumReals(s[..j + 1]) == SumReals(s[..j]) + s[j]
  {
    assert s[..j + 1][..j] == s[..j];
  }

  lemma {:induction false} KeyTotalStep(env: Env, columns: seq<ColumnDef>, rows: seq<OutRow>, i: nat, k: string)
    requires i < |rows|
    ensures KeyTotal(env, columns, rows[..i + 1], k) == KeyTotal(env, columns, rows[..i], k) + SumReals(Contributions(env, columns, rows[i], k))
  {
    var big := RowKeyTotals(env, columns, rows[..i + 1], k);
    assert big[..i] == RowKeyTotals(env, columns, rows[..i], k);
  }

  lemma {:induction false} NumericKeysStep(columns: seq<ColumnDef>, j: nat)
    requires j < |columns|
    ensures NumericKeys(columns[..j + 1]) == NumericKeys(columns[..j]) + (if IsNumber(columns[j]) then {columns[j].key} else {})
  {
    var a := columns[..j + 1];
    assert a[j] == columns[j];
    assert forall m :: 0 <= m < j ==> a[m] == columns[..j][m];
  }

  /** A key no earlier number column carries has collected nothing yet. */
  lemma {:induction false} UnseenKeyZero(env: Env, columns: seq<ColumnDef>, row: OutRow, k: string, j: nat)
    requires j <= |columns| && k !in NumericKeys(columns[..j])
    ensures SumReals(Contributions(env, columns, row, k)[..j]) == 0.0
  {
    var c := Contributions(env, columns, row, k)[..j];
    forall m | 0 <= m < j
      ensures c[m] == 0.0
    {
      assert columns[..j][m] == columns[m];
    }
    SumZeros(c);
  }

  /** What the column totals hold after the first `j` columns of row `i`. */
  ghost predicate TotalsAt(env: Env, columns: seq<ColumnDef>, rows: seq<OutRow>, i: nat, j: nat, totals: map<string, real>)
    requires i < |rows| && j <= |columns|
  {
    && totals.Keys == (if i == 0 then NumericKeys(columns[..j]) else NumericKeys(columns))
    && forall k :: k in totals ==>
         totals[k] == KeyTotal(env, columns, rows[..i], k) + SumReals(Contributions(env, columns, rows[i], k)[..j])
  }

  /** The body of the inner `forEach` of `computeTotals`: column `j` of row
      `i` added to the column totals and to the row's running total. */
  method AddColumn(env: Env, columns: seq<ColumnDef>, rows: seq<OutRow>, i: nat, j: nat, totals: map<string, real>, rowTotal: real)
    returns (next: map<string, real>, nextRowTotal: real)
    requires i < |rows| && j < |columns|
    requires TotalsAt(env, columns, rows, i, j, totals)
    requires rowTotal == SumReals(RowCells(env, columns, rows[i])[..j])
    ensures TotalsAt(env, columns, rows, i, j + 1, next)
    ensures nextRowTotal == SumReals(RowCells(env, columns, rows[i])[..j + 1])
  {
    var row := rows[i];
    var col := columns[j];
    SumPrefixStep(RowCells(env, columns, row), j);
    NumericKeysStep(columns, j);
    next, nextRowTotal := totals, rowTotal;
    if IsNumber(col) {
      var safe := CellNumber(env, row, col.key);
      if col.key !in totals {
        UnseenKeyZero(env, columns, row, col.key, j);
      }
      var before := if col.key in totals then totals[col.key] else 0.0;
      next := totals[col.key := before + safe];
      if col.showRowTotal {
        nextRowTotal := rowTotal + safe;
      }
    }
    assert next.Keys == totals.Keys + (if IsNumber(col) then {col.key} else {});
    assert IsNumber(col) ==> col.key in NumericKeys(columns);
    forall k | k in next
      ensures next[k] == KeyTotal(env, columns, rows[..i], k) + SumReals(Contributions(env, columns, row, k)[..j + 1])
    {
      var c := Contributions(env, columns, row, k);
      SumPrefixStep(c, j);
      if k != col.key || !IsNumber(col) {
        assert c[j] == 0.0;
        assert next[k] == totals[k];
      }
    }
  }

  /** The body of the outer `forEach` of `computeTotals`: one row added to
      the column totals, and that row's total. */
  method AccumulateRow(env: Env, columns: seq<ColumnDef>, rows: seq<OutRow>, i: nat, totals: map<string, real>)
    returns (next: map<string, real>, rowTotal: real)
    requires i < |rows|
    requires totals.Keys == if i == 0 then {} else NumericKeys(columns)
    requires forall k :: k in totals ==> totals[k] == KeyTotal(env, columns, rows[..i], k)
    ensures next.Keys == NumericKeys(columns)
    ensures forall k :: k in next ==> next[k] == KeyTotal(env, columns, rows[..i + 1], k)
    ensures rowTotal == RowTotal(env, columns, rows[i])
  {
    var row := rows[i];
    next := totals;
    rowTotal := 0.0;
    assert columns[..0] == [];
    var j := 0;
    while j < |columns|
      invariant 0 <= j <= |columns|
      invariant rowTotal == SumReals(RowCells(env, columns, row)[..j])
      invariant TotalsAt(env, columns, rows, i, j, next)
    {
      next, rowTotal := AddColumn(env, columns, rows, i, j, next, rowTotal);
      j := j + 1;
    }
    forall k | k in next
      ensures next[k] == KeyTotal(env, columns, rows[..i + 1], k)
    {
      assert Contributions(env, columns, row, k)[..|columns|] == Contributions(env, columns, row, k);
      KeyTotalStep(env, columns, rows, i, k);
    }
    assert columns[..|columns|] == columns;
    assert RowCells(env, columns, row)[..|columns|] == RowCells(env, columns, row);
  }

  /** `computeTotals`: the column totals keyed by column key, one total per
      row, and the grand total of the row totals. */
  method ComputeTotals(env: Env, columns: seq<ColumnDef>, rows: seq<OutRow>) returns (t: Totals)
    ensures |t.rowTotals| == |rows|
    ensures forall i :: 0 <= i < |rows| ==> t.rowTotals[i] == RowTotal(env, columns, rows[i])
    ensures t.grandRowTotal == SumReals(t.rowTotals)
    ensures t.totals.Keys == if |rows| == 0 then {} else NumericKeys(columns)
    ensures forall k :: k in t.totals ==> t.totals[k] == KeyTotal(env, columns, rows, k)
  {
    var totals: map<string, real> := map[];
    var rowTotals: seq<real> := [];
    var i := 0;
    while i < |rows|
      invariant 0 <= i <= |rows|
      invariant |rowTotals| == i
      invariant forall m :: 0 <= m < i ==> rowTotals[m] == RowTotal(env, columns, rows[m])
      invariant totals.Keys == if i == 0 then {} else NumericKeys(columns)
      invariant forall k :: k in totals ==> totals[k] == KeyTotal(env, columns, rows[..i], k)
    {
      var rowTotal;
      totals, rowTotal := AccumulateRow(env, columns, rows, i, totals);
      rowTotals := rowTotals + [rowTotal];
      i := i + 1;
    }
    assert rows[..|rows|] == rows;
    var grand := 0.0;
    var m := 0;
    while m < |rowTotals|
      invariant 0 <= m <= |rowTotals|
      invariant grand == SumReals(rowTotals[..m])
    {
      SumPrefixStep(rowTotals, m);
      grand := grand + rowTotals[m];
      m := m + 1;
    }
    assert rowTotals[..|rowTotals|] == rowTotals;
    t := Totals(totals, rowTotals, grand);
  }

  // ---------------------------------------------------------------------
  // What the totals add up to
  // ---------------------------------------------------------------------

  /** The values of key `k` across the rows, `NaN` read as 0. */
  function ColumnCells(env: Env, rows: seq<OutRow>, k: string): (r: seq<real>)
    ensures |r| == |rows|
  {
    seq(|rows|, i requires 0 <= i < |rows| => CellNumber(env, rows[i], k))
  }

  function ColumnSum(env: Env, rows: seq<OutRow>, k: string): real {
    SumReals(ColumnCells(env, rows, k))
  }

  /** What each column adds to the total under key `k`: its sum when it is
      a number column with that key, 0 otherwise. */
  function KeyShares(env: Env, columns: seq<ColumnDef>, rows: seq<OutRow>, k: string): (r: seq<real>)
    ensures |r| == |columns|
  {
    seq(|columns|, j requires 0 <= j < |columns| =>
      if IsNumber(columns[j]) && columns[j].key == k then ColumnSum(env, rows, k) else 0.0)
  }

  /** The total under a key, summed by columns: the column sum once for
      every number column with that key. */
  lemma {:induction false} KeyTotalByColumns(env: Env, columns: seq<ColumnDef>, rows: seq<OutRow>, k: string)
    ensures KeyTotal(env, columns, rows, k) == SumReals(KeyShares(env, columns, rows, k))
  {
    var m := seq(|rows|, i requires 0 <= i < |rows| => Contributions(env, columns, rows[i], k));
    SumByRowsOrColumns(m, |columns|);
    assert RowSums(m) == RowKeyTotals(env, columns, rows, k);
    forall j | 0 <= j < |columns|
      ensures ColumnSums(m, |columns|)[j] == KeyShares(env, columns, rows, k)[j]
    {
      var col := Column(m, j);
      if IsNumber(columns[j]) && columns[j].key == k {
        assert col == ColumnCells(env, rows, k);
      } else {
        SumZeros(col);
      }
    }
    assert ColumnSums(m, |columns|) == KeyShares(env, columns, rows, k);
  }

  /** When one number column alone carries key `k`, the total under `k` is
      that column's sum. */
  lemma {:induction false} SingleColumnTotal(env: Env, columns: seq<ColumnDef>, rows: seq<OutRow>, j: nat)
    requires j < |columns| && IsNumber(columns[j])
    requires forall i :: 0 <= i < |columns| && i != j && IsNumber(columns[i]) ==> columns[i].key != columns[j].key
    ensures KeyTotal(env, columns, rows, columns[j].key) == ColumnSum(env, rows, columns[j].key)
  {
    var k := columns[j].key;
    KeyTotalByColumns(env, columns, rows, k);
    SumSingle(KeyShares(env, columns, rows, k), j);
  }

  /** What each column adds to the grand total: its sum when it is a number
      column shown in the row totals, 0 otherwise. */
  function ColumnShares(env: Env, columns: seq<ColumnDef>, rows: seq<OutRow>): (r: seq<real>)
    ensures |r| == |columns|
  {
    seq(|columns|, j requires 0 <= j < |columns| =>
      if IsNumber(columns[j]) && columns[j].showRowTotal then ColumnSum(env, rows, columns[j].key) else 0.0)
  }

  /** The grand total summed by rows equals the same cells summed by
      columns: the sum of the row-total columns' sums. */
  lemma {:induction false} GrandTotalByColumns(env: Env, columns: seq<ColumnDef>, rows: seq<OutRow>)
    ensures SumReals(seq(|rows|, i requires 0 <= i < |rows| => RowTotal(env, columns, rows[i])))
         == SumReals(ColumnShares(env, columns, rows))
  {
    var m := seq(|rows|, i requires 0 <= i < |rows| => RowCells(env, columns, rows[i]));
    SumByRowsOrColumns(m, |columns|);
    assert RowSums(m) == seq(|rows|, i requires 0 <= i < |rows| => RowTotal(env, columns, rows[i]));
    forall j | 0 <= j < |columns|
      ensures ColumnSums(m, |columns|)[j] == ColumnShares(env, columns, rows)[j]
    {
      var col := Column(m, j);
      if IsNumber(columns[j]) && columns[j].showRowTotal {
        assert col == ColumnCells(env, rows, columns[j].key);
      } else {
        SumZeros(col);
      }
    }
    assert ColumnSums(m, |columns|) == ColumnShares(env, columns, rows);
  }

  // ---------------------------------------------------------------------
  // The footer row
  // ---------------------------------------------------------------------

  /** A footer cell's value before formatting: the column's total (0 when
      absent), or with no rows 0 for a number column and the text `"null"`
      for a text column. */
  function FooterValue(totals: map<string, real>, col: ColumnDef, rowCount: nat): Value {
    if rowCount > 0 then Num(if col.key in totals then totals[col.key] else 0.0)
    else if IsNumber(col) then Num(0.0)
    else Str("null")
  }

  /** A text column's footer, `String(baseValue || "")`. */
  function TextFooter(env: Env, totals: map<string, real>, col: ColumnDef, rowCount: nat): string {
    match FooterValue(totals, col, rowCount)
    case Num(x) => if x == 0.0 then "" else env.numberText(x)
    case Str(t) => t
  }

  /** A text column's footer reads `"null"` when no row is shown and is
      blank otherwise, unless a number column shares its key. */
  lemma {:induction false} TextFooterPolicy(env: Env, columns: seq<ColumnDef>, rows: seq<OutRow>, t: Totals, col: ColumnDef)
    requires !IsNumber(col)
    requires t.totals.Keys == if |rows| == 0 then {} else NumericKeys(columns)
    ensures |rows| == 0 ==> TextFooter(env, t.totals, col, |rows|) == "null"
    ensures col.key !in NumericKeys(columns) ==> TextFooter(env, t.totals, col, |rows|) in {"", "null"}
    ensures |rows| > 0 && col.key !in NumericKeys(columns) ==> TextFooter(env, t.totals, col, |rows|) == ""
  {
  }
}
