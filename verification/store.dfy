/** The data store: the header index over the loaded CSV and the mapping of
    every CSV row to a record keyed by the table's columns. */
module Store {
  import opened Dsl
  import opened Records

  /** `buildHeaderIndex`: each header's position; a repeated header keeps
      its last position. */
  function HeaderIndex(headers: seq<string>): map<string, nat> {
    if |headers| == 0 then map[]
    else HeaderIndex(headers[..|headers| - 1])[headers[|headers| - 1] := |headers| - 1]
  }

  /** The index covers exactly the headers. */
  lemma {:induction false} HeaderIndexDomain(headers: seq<string>, h: string)
    ensures h in HeaderIndex(headers) <==> h in headers
  {
    if |headers| > 0 {
      var n := |headers| - 1;
      HeaderIndexDomain(headers[..n], h);
      assert headers == headers[..n] + [headers[n]];
    }
  }

  /** A header is indexed at its last occurrence. */
  lemma {:induction false} HeaderIndexLast(headers: seq<string>, h: string)
    requires h in headers
    ensures h in HeaderIndex(headers)
    ensures var k := HeaderIndex(headers)[h];
            k < |headers| && headers[k] == h && h !in headers[k + 1..]
  {
    var n := |headers| - 1;
    var prefix := headers[..n];
    assert headers == prefix + [headers[n]];
    if h != headers[n] {
      HeaderIndexLast(prefix, h);
      var k := HeaderIndex(prefix)[h];
      assert headers[k + 1..] == prefix[k + 1..] + [headers[n]];
    }
  }

  /** A header that occurs once is indexed at its position. */
  lemma {:induction false} HeaderIndexUnique(headers: seq<string>, i: nat)
    requires i < |headers|
    requires forall j :: 0 <= j < |headers| && j != i ==> headers[j] != headers[i]
    ensures headers[i] in HeaderIndex(headers) && HeaderIndex(headers)[headers[i]] == i
  {
    HeaderIndexLast(headers, headers[i]);
  }

  /** `getRowSourceValue`: the row's cell under `header`, `""` when the
      header is unknown or the cell is missing or empty. */
  function GetRowSourceValue(index: map<string, nat>, sourceRow: seq<string>, header: string): string {
    if header in index && index[header] < |sourceRow| then sourceRow[index[header]] else ""
  }

  /** Under a header that occurs once, a full-width row yields the cell at
      that header's position. */
  lemma {:induction false} SourceValueAtHeader(headers: seq<string>, sourceRow: seq<string>, i: nat)
    requires i < |headers| == |sourceRow|
    requires forall j :: 0 <= j < |headers| && j != i ==> headers[j] != headers[i]
    ensures GetRowSourceValue(HeaderIndex(headers), sourceRow, headers[i]) == sourceRow[i]
  {
    HeaderIndexUnique(headers, i);
  }

  /** The column fields of a mapped row, assigned in column order. */
  function ColumnFields(index: map<string, nat>, columns: seq<ColumnDef>, sourceRow: seq<string>): map<string, string> {
    if |columns| == 0 then map[]
    else
      var n := |columns| - 1;
      ColumnFields(index, columns[..n], sourceRow)[columns[n].key := GetRowSourceValue(index, sourceRow, columns[n].sourceHeader)]
  }

  /** A mapped row has a field exactly for the column keys. */
  lemma {:induction false} ColumnFieldsDomain(index: map<string, nat>, columns: seq<ColumnDef>, sourceRow: seq<string>, k: string)
    ensures k in ColumnFields(index, columns, sourceRow) <==> exists i :: 0 <= i < |columns| && columns[i].key == k
  {
    if |columns| > 0 {
      var n := |columns| - 1;
      var prefix := columns[..n];
      ColumnFieldsDomain(index, prefix, sourceRow, k);
      if exists i :: 0 <= i < |columns| && columns[i].key == k {
        var i :| 0 <= i < |columns| && columns[i].key == k;
        if i < n {
          assert prefix[i].key == k;
        }
      }
      if exists i :: 0 <= i < n && prefix[i].key == k {
        var i :| 0 <= i < n && prefix[i].key == k;
        assert columns[i].key == k;
      }
    }
  }

  /** The last column with a given key decides that key's value. */
  lemma {:induction false} ColumnFieldsLastWins(index: map<string, nat>, columns: seq<ColumnDef>, sourceRow: seq<string>, i: nat)
    requires i < |columns|
    requires forall j :: i < j < |columns| ==> columns[j].key != columns[i].key
    ensures var fields := ColumnFields(index, columns, sourceRow);
            columns[i].key in fields && fields[columns[i].key] == GetRowSourceValue(index, sourceRow, columns[i].sourceHeader)
  {
    var n := |columns| - 1;
    if i < n {
      var prefix := columns[..n];
      assert prefix[i] == columns[i];
      ColumnFieldsLastWins(index, prefix, sourceRow, i);
    }
  }

  /** The headers a mapped row's `_source` covers: every indexed header and
      every column's source header. */
  function SourceHeaders(index: map<string, nat>, columns: seq<ColumnDef>): set<string> {
    index.Keys + set i | 0 <= i < |columns| :: columns[i].sourceHeader
  }

  /** Column `j` is the last column carrying its key. */
  predicate LastWithKey(columns: seq<ColumnDef>, j: nat) {
    j < |columns| && forall l :: j < l < |columns| ==> columns[l].key != columns[j].key
  }

  /** `mapRows` for one CSV row. Its `_source` gives, for every header
      whatsoever, the row's raw cell under that header; it has a field for
      exactly the column keys, and each holds the cell under the source
      header of the last column with that key. */
  function MapRow(index: map<string, nat>, columns: seq<ColumnDef>, sourceRow: seq<string>): (row: MappedRow)
    ensures forall h :: SourceText(row, h) == GetRowSourceValue(index, sourceRow, h)
    ensures forall k :: k in row.fields <==> exists j :: 0 <= j < |columns| && columns[j].key == k
    ensures forall j: nat :: LastWithKey(columns, j) ==>
              columns[j].key in row.fields && row.fields[columns[j].key] == GetRowSourceValue(index, sourceRow, columns[j].sourceHeader)
  {
    var fields := ColumnFields(index, columns, sourceRow);
    assert forall k :: k in fields <==> exists j :: 0 <= j < |columns| && columns[j].key == k by {
      forall k ensures k in fields <==> exists j :: 0 <= j < |columns| && columns[j].key == k {
        ColumnFieldsDomain(index, columns, sourceRow, k);
      }
    }
    assert forall j: nat :: LastWithKey(columns, j) ==>
             columns[j].key in fields && fields[columns[j].key] == GetRowSourceValue(index, sourceRow, columns[j].sourceHeader) by {
      forall j: nat | LastWithKey(columns, j)
        ensures columns[j].key in fields && fields[columns[j].key] == GetRowSourceValue(index, sourceRow, columns[j].sourceHeader)
      {
        ColumnFieldsLastWins(index, columns, sourceRow, j);
      }
    }
    MappedRow(
      map h | h in SourceHeaders(index, columns) :: GetRowSourceValue(index, sourceRow, h),
      fields)
  }

  /** `mapRows`: one mapped row per CSV row, in order. Row `i` reads every
      header's cell from CSV row `i`, has a field for exactly the column
      keys, and each field holds the cell under its column's source header. */
  function MapRows(index: map<string, nat>, columns: seq<ColumnDef>, rows: seq<seq<string>>): (mapped: seq<MappedRow>)
    ensures |mapped| == |rows|
    ensures forall i :: 0 <= i < |rows| ==> mapped[i] == MapRow(index, columns, rows[i])
    ensures forall i, h :: 0 <= i < |rows| ==> SourceText(mapped[i], h) == GetRowSourceValue(index, rows[i], h)
    ensures forall i, k :: 0 <= i < |rows| ==> (k in mapped[i].fields <==> exists j :: 0 <= j < |columns| && columns[j].key == k)
    ensures forall i, j: nat :: 0 <= i < |rows| && LastWithKey(columns, j) ==>
              mapped[i].fields[columns[j].key] == GetRowSourceValue(index, rows[i], columns[j].sourceHeader)
  {
    seq(|rows|, i requires 0 <= i < |rows| => MapRow(index, columns, rows[i]))
  }
}
