/** The sort engine: the header click cycle of `setupSort` and
    `applySort`, a stable sort by the active column. */
module Sorting {
  import opened Wrappers
  import opened Seqs
  import opened Dsl
  import opened Records

  // ---------------------------------------------------------------------
  // The click cycle
  // ---------------------------------------------------------------------

  datatype Direction = Asc | Desc

  /** `tableState.sort`: the active column index and direction, both
      `null` when the table is unsorted. */
  datatype SortState = SortState(column: Option<nat>, direction: Option<Direction>)

  const Unsorted := SortState(None, None)

  /** The states the table starts in and clicks can reach: the index and
      the direction are set together. */
  predicate WellFormed(st: SortState) {
    st.column.None? <==> st.direction.None?
  }

  /** A click on the header at `index`: a new column sorts ascending,
      ascending turns descending, and descending clears the sort. */
  function Click(st: SortState, index: nat): (r: SortState)
    ensures st.column != Some(index) ==> r == SortState(Some(index), Some(Asc))
    ensures st == SortState(Some(index), Some(Asc)) ==> r == SortState(Some(index), Some(Desc))
    ensures st == SortState(Some(index), Some(Desc)) ==> r == Unsorted
    ensures st == SortState(Some(index), None) ==> r == SortState(Some(index), Some(Asc))
  {
    if st.column != Some(index) then SortState(Some(index), Some(Asc))
    else if st.direction == Some(Asc) then st.(direction := Some(Desc))
    else if st.direction == Some(Desc) then Unsorted
    else st.(direction := Some(Asc))
  }

  /** Clicks keep the index and the direction in step, and a sorted state
      always names the column last clicked. */
  lemma {:induction false} ClickWellFormed(st: SortState, index: nat)
    requires WellFormed(st)
    ensures WellFormed(Click(st, index))
    ensures Click(st, index).column.None? || Click(st, index).column == Some(index)
  {
  }

  /** Three clicks on one header from an unsorted table go ascending,
      descending and back to unsorted. */
  lemma {:induction false} ClickCycle(index: nat)
    ensures Click(Unsorted, index) == SortState(Some(index), Some(Asc))
    ensures Click(Click(Unsorted, index), index) == SortState(Some(index), Some(Desc))
    ensures Click(Click(Click(Unsorted, index), index), index) == Unsorted
  {
  }

  // ---------------------------------------------------------------------
  // Stable sorting by a key
  // ---------------------------------------------------------------------

  /** Each element's key is at least its predecessor's. */
  predicate SortedBy<T>(s: seq<T>, key: T -> real) {
    forall i :: 0 < i < |s| ==> key(s[i - 1]) <= key(s[i])
  }

  /** In a sorted sequence any earlier element has a key no larger than
      any later one. */
  lemma {:induction false} SortedByPairs<T>(s: seq<T>, key: T -> real, i: nat, j: nat)
    requires SortedBy(s, key) && i <= j < |s|
    ensures key(s[i]) <= key(s[j])
    decreases j - i
  {
    if i < j {
      SortedByPairs(s, key, i, j - 1);
    }
  }

  /** Inserts `x` before the first element whose key is not smaller, so it
      lands ahead of the elements with an equal key. */
  function Insert<T(==)>(x: T, t: seq<T>, key: T -> real): (r: seq<T>)
    requires SortedBy(t, key)
    ensures multiset(r) == multiset(t) + multiset{x}
    ensures |r| == |t| + 1
    ensures r[0] == x || (|t| > 0 && r[0] == t[0])
    ensures SortedBy(r, key)
  {
    if |t| == 0 || key(x) <= key(t[0]) then
      [x] + t
    else
      var tail := t[1..];
      assert t == [t[0]] + tail;
      var rest := Insert(x, tail, key);
      [t[0]] + rest
  }

  /** Insertion sort from the back: the earliest element is inserted last,
      ahead of its equals. */
  function SortBy<T(==)>(s: seq<T>, key: T -> real): (r: seq<T>)
    ensures multiset(r) == multiset(s)
    ensures SortedBy(r, key)
  {
    if |s| == 0 then []
    else
      assert s == [s[0]] + s[1..];
      Insert(s[0], SortBy(s[1..], key), key)
  }

  /** The elements whose key is `v`. */
  function KeyIs<T>(key: T -> real, v: real): T -> bool {
    y => key(y) == v
  }

  /** Inserting `x` puts it ahead of the elements with its key. */
  lemma {:induction false} InsertKeepsEquals<T>(x: T, t: seq<T>, key: T -> real, v: real)
    requires SortedBy(t, key)
    ensures Filter(Insert(x, t, key), KeyIs(key, v)) == Filter([x] + t, KeyIs(key, v))
  {
    if |t| > 0 && key(x) > key(t[0]) {
      var p := KeyIs(key, v);
      var tail := t[1..];
      assert t == [t[0]] + tail;
      var rest := Insert(x, tail, key);
      assert Insert(x, t, key) == [t[0]] + rest;
      InsertKeepsEquals(x, tail, key, v);
      var keepX: seq<T> := if p(x) then [x] else [];
      var keepT: seq<T> := if p(t[0]) then [t[0]] else [];
      FilterCons(t[0], rest, p);
      FilterCons(x, tail, p);
      FilterCons(x, t, p);
      FilterCons(t[0], tail, p);
      assert Filter(Insert(x, t, key), p) == keepT + (keepX + Filter(tail, p));
      assert Filter([x] + t, p) == keepX + (keepT + Filter(tail, p));
      assert keepX == [] || keepT == [];
    }
  }

  /** The sort is stable: the elements with any one key keep their order. */
  lemma {:induction false} SortByStable<T>(s: seq<T>, key: T -> real, v: real)
    ensures Filter(SortBy(s, key), KeyIs(key, v)) == Filter(s, KeyIs(key, v))
  {
    if |s| > 0 {
      SortByStable(s[1..], key, v);
      InsertKeepsEquals(s[0], SortBy(s[1..], key), key, v);
      var sorted := SortBy(s[1..], key);
      assert ([s[0]] + sorted)[1..] == sorted;
      assert ([s[0]] + s[1..])[1..] == s[1..];
      assert s == [s[0]] + s[1..];
    }
  }

  // ---------------------------------------------------------------------
  // applySort
  // ---------------------------------------------------------------------

  /** `tableState.sortTypes`: a header marked `number` sorts numerically,
      any other sorts as text. */
  datatype SortType = TextSort | NumberSort

  function SortTypeAt(sortTypes: seq<SortType>, i: nat): SortType {
    if i < |sortTypes| then sortTypes[i] else TextSort
  }

  /** `a[col.key] == null ? "" : String(a[col.key])`. */
  function CellText(env: Env, row: OutRow, k: string): string {
    if k in row.fields then ValueText(env, row.fields[k]) else ""
  }

  /** The comparator as a key: a number column compares the parsed values
      (0 when a value does not parse), a text column the collation order;
      descending negates. */
  function SortValue(env: Env, k: string, sortType: SortType, direction: Option<Direction>, row: OutRow): real {
    var base :=
      if sortType == NumberSort then
        (if k in row.fields then ValueNumber(env, row.fields[k]).GetOr(0.0) else 0.0)
      else env.collate(CellText(env, row, k));
    if direction == Some(Desc) then -base else base
  }

  function RowKey(env: Env, k: string, sortType: SortType, direction: Option<Direction>): OutRow -> real {
    (row: OutRow) => SortValue(env, k, sortType, direction, row)
  }

  /** Whether a sort applies: a column is selected, it exists and there
      are rows. */
  predicate SortActive(columns: seq<ColumnDef>, st: SortState, rows: seq<OutRow>) {
    st.column.Some? && st.column.value < |columns| && |rows| > 0
  }

  function ActiveKey(env: Env, columns: seq<ColumnDef>, sortTypes: seq<SortType>, st: SortState): OutRow -> real
    requires st.column.Some? && st.column.value < |columns|
  {
    RowKey(env, columns[st.column.value].key, SortTypeAt(sortTypes, st.column.value), st.direction)
  }

  /** `applySort`: a permutation of the rows ordered by the active column,
      or the rows themselves when no sort applies. */
  function ApplySort(env: Env, columns: seq<ColumnDef>, sortTypes: seq<SortType>, st: SortState, rows: seq<OutRow>): (out: seq<OutRow>)
    ensures !SortActive(columns, st, rows) ==> out == rows
    ensures multiset(out) == multiset(rows) && |out| == |rows|
    ensures SortActive(columns, st, rows) ==> SortedBy(out, ActiveKey(env, columns, sortTypes, st))
  {
    if !SortActive(columns, st, rows) then rows
    else
      var out := SortBy(rows, ActiveKey(env, columns, sortTypes, st));
      assert |out| == |multiset(out)| == |multiset(rows)| == |rows|;
      out
  }

  /** Rows that compare equal keep their relative order. */
  lemma {:induction false} ApplySortStable(env: Env, columns: seq<ColumnDef>, sortTypes: seq<SortType>, st: SortState, rows: seq<OutRow>, v: real)
    requires SortActive(columns, st, rows)
    ensures var key := ActiveKey(env, columns, sortTypes, st);
            Filter(ApplySort(env, columns, sortTypes, st, rows), KeyIs(key, v)) == Filter(rows, KeyIs(key, v))
  {
    SortByStable(rows, ActiveKey(env, columns, sortTypes, st), v);
  }

  /** Descending order is ascending order reversed on the keys: a row sorts
      before another exactly when it would sort after it ascending. */
  lemma {:induction false} DescendingReversesKeys(env: Env, k: string, sortType: SortType, a: OutRow, b: OutRow)
    ensures RowKey(env, k, sortType, Some(Desc))(a) <= RowKey(env, k, sortType, Some(Desc))(b)
        <==> RowKey(env, k, sortType, Some(Asc))(b) <= RowKey(env, k, sortType, Some(Asc))(a)
  {
  }
}
