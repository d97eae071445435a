/** The records that flow through the query engine and the host functions
    it calls. */
module Records {
  import opened Wrappers

  /** A cell of an output row: mapped rows hold text; an aggregated row
      holds numbers for the numeric aggregates and text for `first`. */
  datatype Value = Str(text: string) | Num(number: real)

  /** The JavaScript built-ins the engine relies on, taken as parameters:
      `parseFloat` (`None` standing for `NaN`), `String(number)` and the
      collation order of `localeCompare`, given as a rank (`a` sorts before
      `b` exactly when `collate(a) < collate(b)`). */
  datatype Env = Env(
    parseFloat: string -> Option<real>,
    numberText: real -> string,
    collate: string -> real)

  /** A mapped row (`mapRows`): `_source` holds every CSV header's raw
      value and `fields` the value of each column key. */
  datatype MappedRow = MappedRow(source: map<string, string>, fields: map<string, string>)

  /** A row after grouping: `isGroup` is `_isGroup`, `None` when the
      property was never set. */
  datatype OutRow = OutRow(source: map<string, string>, isGroup: Option<bool>, fields: map<string, Value>)

  /** `row._source[h] || ""`. */
  function SourceText(row: MappedRow, h: string): string {
    if h in row.source then row.source[h] else ""
  }

  /** `row[k]` of a mapped row, `""` when the row has no such field. */
  function FieldText(row: MappedRow, k: string): string {
    if k in row.fields then row.fields[k] else ""
  }

  /** `String(v)`. */
  function ValueText(env: Env, v: Value): string {
    match v
    case Str(t) => t
    case Num(n) => env.numberText(n)
  }

  /** `parseFloat(v)`: a number reads as itself. */
  function ValueNumber(env: Env, v: Value): Option<real> {
    match v
    case Str(t) => env.parseFloat(t)
    case Num(n) => Some(n)
  }

  /** The text fields of an output row, read back as a mapped row. */
  function Unlift(r: OutRow): MappedRow {
    MappedRow(r.source, map k | k in r.fields :: match r.fields[k] case Str(t) => t case Num(_) => "")
  }

  /** A mapped row as it leaves the grouping stage ungrouped: the same row
      object with only its `_isGroup` mark set, so nothing is lost. */
  function Lift(row: MappedRow, isGroup: Option<bool>): (r: OutRow)
    ensures Unlift(r) == row && r.isGroup == isGroup
    ensures forall k :: k in row.fields ==> k in r.fields && r.fields[k] == Str(row.fields[k])
  {
    var r := OutRow(row.source, isGroup, map k | k in row.fields :: Str(row.fields[k]));
    assert Unlift(r).fields == row.fields;
    r
  }
}
