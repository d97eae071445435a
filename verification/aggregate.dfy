/** The aggregation engine: the aggregate functions of `AGG_FUNCS` and
    `groupAndAggregate`, which folds rows into one row per distinct group
    key, in the order the keys are first seen. */
module Aggregation {
  import opened Wrappers
  import opened Seqs
  import opened Dsl
  import opened Records

  // ---------------------------------------------------------------------
  // Aggregate functions
  // ---------------------------------------------------------------------

  datatype AggFn = SumFn | CountFn | MeanFn | MinFn | MaxFn | NUniqueFn | FirstFn

  const KnownAggNames: set<string> := {"sum", "count", "mean", "avg", "min", "max", "nunique", "first"}

  /** `AGG_FUNCS[name] || AGG_FUNCS.first`: `avg` is `mean` and an unknown
      name falls back to `first`. */
  function ResolveAgg(name: string): (fn: AggFn)
    ensures fn == FirstFn <==> name == "first" || name !in KnownAggNames
    ensures fn == MeanFn <==> name == "mean" || name == "avg"
  {
    if name == "sum" then SumFn
    else if name == "count" then CountFn
    else if name == "mean" || name == "avg" then MeanFn
    else if name == "min" then MinFn
    else if name == "max" then MaxFn
    else if name == "nunique" then NUniqueFn
    else FirstFn
  }

  /** The name under which each function is registered. */
  function AggName(fn: AggFn): string {
    match fn
    case SumFn => "sum"
    case CountFn => "count"
    case MeanFn => "mean"
    case MinFn => "min"
    case MaxFn => "max"
    case NUniqueFn => "nunique"
    case FirstFn => "first"
  }

  /** Every function is found under its own name. */
  lemma {:induction false} ResolveAggName(fn: AggFn)
    ensures AggName(fn) in KnownAggNames && ResolveAgg(AggName(fn)) == fn
  {
  }

  /** `sum`: left to right, a value that does not parse counts as 0. */
  function SumOf(env: Env, values: seq<string>): real {
    if |values| == 0 then 0.0
    else SumOf(env, values[..|values| - 1]) + env.parseFloat(values[|values| - 1]).GetOr(0.0)
  }

  /** The values that parse as numbers, in order. */
  function Parsed(env: Env, values: seq<string>): seq<real> {
    Choose(values, env.parseFloat)
  }

  /** `sum` is the sum of the values that parse. */
  lemma {:induction false} SumOfParsed(env: Env, values: seq<string>)
    ensures SumOf(env, values) == SumReals(Parsed(env, values))
  {
    if |values| > 0 {
      var n := |values| - 1;
      var prefix := values[..n];
      SumOfParsed(env, prefix);
      assert values == prefix + [values[n]];
      ChooseAppend(prefix, [values[n]], env.parseFloat);
      assert [values[n]][1..] == [];
      SumRealsAppend(Parsed(env, prefix), Choose([values[n]], env.parseFloat));
    }
  }

  /** A value `count` counts: anything but `""` (mapped cells are never
      `null`). */
  predicate IsFilled(v: string) {
    v != ""
  }

  /** `count`: the values that are not empty. */
  function CountOf(values: seq<string>): (n: nat)
    ensures n == |Filter(values, IsFilled)|
    ensures n <= |values|
    ensures n == |values| <==> forall i :: 0 <= i < |values| ==> values[i] != ""
    ensures n == 0 <==> forall i :: 0 <= i < |values| ==> values[i] == ""
  {
    if |values| == 0 then 0
    else
      var rest := CountOf(values[1..]);
      assert forall i :: 1 <= i < |values| ==> values[i] == values[1..][i - 1];
      (if values[0] != "" then 1 else 0) + rest
  }

  /** `Math.min` of a non-empty list. */
  function MinOf(nums: seq<real>): (m: real)
    requires |nums| > 0
    ensures m in nums
    ensures forall i :: 0 <= i < |nums| ==> m <= nums[i]
  {
    if |nums| == 1 then nums[0]
    else
      var n := |nums| - 1;
      var prev := MinOf(nums[..n]);
      assert forall i :: 0 <= i < n ==> nums[i] == nums[..n][i];
      if nums[n] < prev then nums[n] else prev
  }

  /** `Math.max` of a non-empty list. */
  function MaxOf(nums: seq<real>): (m: real)
    requires |nums| > 0
    ensures m in nums
    ensures forall i :: 0 <= i < |nums| ==> nums[i] <= m
  {
    if |nums| == 1 then nums[0]
    else
      var n := |nums| - 1;
      var prev := MaxOf(nums[..n]);
      assert forall i :: 0 <= i < n ==> nums[i] == nums[..n][i];
      if nums[n] > prev then nums[n] else prev
  }

  /** `mean`: the sum of the values that parse over their number, 0 when
      none does. */
  function MeanOf(env: Env, values: seq<string>): real {
    var nums := Parsed(env, values);
    if |nums| > 0 then SumReals(nums) / (|nums| as real) else 0.0
  }

  /** Bounds on a sum from bounds on its terms. */
  lemma {:induction false} SumRealsBounds(nums: seq<real>, lo: real, hi: real)
    requires forall i :: 0 <= i < |nums| ==> lo <= nums[i] <= hi
    ensures (|nums| as real) * lo <= SumReals(nums) <= (|nums| as real) * hi
  {
    if |nums| > 0 {
      var n := |nums| - 1;
      assert forall i :: 0 <= i < n ==> nums[..n][i] == nums[i];
      SumRealsBounds(nums[..n], lo, hi);
      assert (|nums| as real) * lo == (n as real) * lo + lo;
      assert (|nums| as real) * hi == (n as real) * hi + hi;
    }
  }

  /** Dividing a bound on `n * x` by a positive `n`. */
  lemma {:induction false} DivideBounds(n: real, lo: real, s: real, hi: real)
    requires n > 0.0 && n * lo <= s <= n * hi
    ensures lo <= s / n <= hi
  {
    assert n * (s / n) == s;
  }

  /** The average of a non-empty list lies between its extremes. */
  lemma {:induction false} AverageBetween(nums: seq<real>)
    requires |nums| > 0
    ensures MinOf(nums) <= SumReals(nums) / (|nums| as real) <= MaxOf(nums)
  {
    var lo, hi := MinOf(nums), MaxOf(nums);
    SumRealsBounds(nums, lo, hi);
    DivideBounds(|nums| as real, lo, SumReals(nums), hi);
  }

  /** The mean lies between the minimum and the maximum. */
  lemma {:induction false} MeanBetweenMinAndMax(env: Env, values: seq<string>)
    requires |Parsed(env, values)| > 0
    ensures MinOf(Parsed(env, values)) <= MeanOf(env, values) <= MaxOf(Parsed(env, values))
  {
    AverageBetween(Parsed(env, values));
  }

  /** `nunique`: the number of distinct values. */
  function NUniqueOf(values: seq<string>): nat {
    |Distinct(values)|
  }

  /** `nunique` counts the set of the values. */
  lemma {:induction false} NUniqueCountsValues(values: seq<string>)
    ensures NUniqueOf(values) == |set v | v in values|
  {
    var d := Distinct(values);
    NoDuplicatesCardinality(d);
    assert (set v | v in d) == (set v | v in values);
  }

  /** `first`: the first value, `""` for an empty list. */
  function FirstOf(values: seq<string>): (r: string)
    ensures |values| > 0 ==> r == values[0]
    ensures |values| == 0 ==> r == ""
  {
    if |values| == 0 then "" else values[0]
  }

  /** One aggregate over one column's values: the numeric functions give
      numbers, `first` gives text, and `min`, `max` and `mean` give 0 when
      no value parses. */
  function Aggregate(env: Env, fn: AggFn, values: seq<string>): (v: Value)
    ensures v.Str? <==> fn == FirstFn
    ensures fn == SumFn ==> v == Num(SumReals(Parsed(env, values)))
    ensures fn == CountFn ==> v == Num(|Filter(values, IsFilled)| as real)
    ensures (fn == MeanFn || fn == MinFn || fn == MaxFn) && |Parsed(env, values)| == 0 ==> v == Num(0.0)
    ensures fn == MeanFn && |Parsed(env, values)| > 0 ==>
              v == Num(SumReals(Parsed(env, values)) / (|Parsed(env, values)| as real))
              && MinOf(Parsed(env, values)) <= v.number <= MaxOf(Parsed(env, values))
    ensures fn == MinFn && |Parsed(env, values)| > 0 ==>
              v.number in Parsed(env, values) && forall x :: x in Parsed(env, values) ==> v.number <= x
    ensures fn == MaxFn && |Parsed(env, values)| > 0 ==>
              v.number in Parsed(env, values) && forall x :: x in Parsed(env, values) ==> x <= v.number
    ensures fn == NUniqueFn ==> v == Num(|set x | x in values| as real)
    ensures fn == FirstFn ==> v == Str(if |values| == 0 then "" else values[0])
  {
    SumOfParsed(env, values);
    NUniqueCountsValues(values);
    var nums := Parsed(env, values);
    assert |nums| > 0 ==> MinOf(nums) <= MeanOf(env, values) <= MaxOf(nums) by {
      if |nums| > 0 { MeanBetweenMinAndMax(env, values); }
    }
    match fn
    case SumFn => Num(SumOf(env, values))
    case CountFn => Num(CountOf(values) as real)
    case MeanFn => Num(MeanOf(env, values))
    case MinFn => Num(if |nums| > 0 then MinOf(nums) else 0.0)
    case MaxFn => Num(if |nums| > 0 then MaxOf(nums) else 0.0)
    case NUniqueFn => Num(NUniqueOf(values) as real)
    case FirstFn => Str(FirstOf(values))
  }

  /** The aggregate name for a column: the map entry for its source header,
      then the one for its key, then `sum` for numbers and `first`
      otherwise; an empty entry counts as absent. */
  function ChooseAggName(aggMap: map<string, string>, col: ColumnDef): (name: string)
    ensures name != ""
    ensures col.sourceHeader in aggMap && aggMap[col.sourceHeader] != "" ==> name == aggMap[col.sourceHeader]
    ensures !(col.sourceHeader in aggMap && aggMap[col.sourceHeader] != "") && col.key in aggMap && aggMap[col.key] != ""
            ==> name == aggMap[col.key]
    ensures !(col.sourceHeader in aggMap && aggMap[col.sourceHeader] != "") && !(col.key in aggMap && aggMap[col.key] != "")
            ==> name == (if col.kind == NumberColumn then "sum" else "first")
    ensures name in aggMap.Values || name == "sum" || name == "first"
  {
    if col.sourceHeader in aggMap && aggMap[col.sourceHeader] != "" then aggMap[col.sourceHeader]
    else if col.key in aggMap && aggMap[col.key] != "" then aggMap[col.key]
    else if col.kind == NumberColumn then "sum"
    else "first"
  }

  // ---------------------------------------------------------------------
  // Grouping
  // ---------------------------------------------------------------------

  /** A group: its key and its rows, in input order. */
  datatype Group = Group(key: string, members: seq<MappedRow>)

  function GroupKeys(groups: seq<Group>): seq<string> {
    seq(|groups|, i requires 0 <= i < |groups| => groups[i].key)
  }

  /** `groups.get(key).push(row)`, or a new group at the end when the key
      is new. */
  function AddToGroups(groups: seq<Group>, k: string, row: MappedRow): (r: seq<Group>)
    ensures |r| == |groups| || |r| == |groups| + 1
  {
    if |groups| == 0 then [Group(k, [row])]
    else if groups[0].key == k then [groups[0].(members := groups[0].members + [row])] + groups[1..]
    else [groups[0]] + AddToGroups(groups[1..], k, row)
  }

  /** A new key opens a group at the end. */
  lemma {:induction false} AddNewKey(groups: seq<Group>, k: string, row: MappedRow)
    requires k !in GroupKeys(groups)
    ensures AddToGroups(groups, k, row) == groups + [Group(k, [row])]
  {
    if |groups| > 0 {
      assert groups[0].key == GroupKeys(groups)[0];
      assert GroupKeys(groups[1..]) == GroupKeys(groups)[1..];
      AddNewKey(groups[1..], k, row);
      assert groups == [groups[0]] + groups[1..];
    }
  }

  /** The row the fold appends to the group with key `k`. */
  function Extend(g: Group, k: string, row: MappedRow): Group {
    if g.key == k then g.(members := g.members + [row]) else g
  }

  /** A known key extends its own group and leaves the others alone. */
  lemma {:induction false} AddKnownKey(groups: seq<Group>, k: string, row: MappedRow)
    requires NoDuplicates(GroupKeys(groups)) && k in GroupKeys(groups)
    ensures AddToGroups(groups, k, row) == seq(|groups|, i requires 0 <= i < |groups| => Extend(groups[i], k, row))
  {
    var keys := GroupKeys(groups);
    var tail := groups[1..];
    assert GroupKeys(tail) == keys[1..];
    if groups[0].key == k {
      forall i | 1 <= i < |groups|
        ensures groups[i].key != k
      {
        assert keys[i] != keys[0];
      }
    } else {
      assert k in GroupKeys(tail) by {
        var j :| 0 <= j < |keys| && keys[j] == k;
        assert keys[1..][j - 1] == k;
      }
      AddKnownKey(tail, k, row);
    }
  }

  /** The group key of every row. */
  function RowKeys(rows: seq<MappedRow>, groupKey: string): seq<string> {
    seq(|rows|, i requires 0 <= i < |rows| => FieldText(rows[i], groupKey))
  }

  /** The rows whose group key is `k`, in order. */
  function Members(rows: seq<MappedRow>, groupKey: string, k: string): seq<MappedRow> {
    Filter(rows, (r: MappedRow) => FieldText(r, groupKey) == k)
  }

  /** The `Map` built by `groupAndAggregate`: rows folded in order into
      groups by the value of the group column. */
  function CollectGroups(rows: seq<MappedRow>, groupKey: string): seq<Group> {
    if |rows| == 0 then []
    else
      var n := |rows| - 1;
      AddToGroups(CollectGroups(rows[..n], groupKey), FieldText(rows[n], groupKey), rows[n])
  }

  /** The reference grouping: one group per distinct key in first-seen
      order, holding the rows with that key. */
  function ReferenceGroups(rows: seq<MappedRow>, groupKey: string): seq<Group> {
    GroupsOf(rows, groupKey, Distinct(RowKeys(rows, groupKey)))
  }

  /** One group per key of `keys`, holding the rows with that key. */
  function GroupsOf(rows: seq<MappedRow>, groupKey: string, keys: seq<string>): seq<Group> {
    seq(|keys|, i requires 0 <= i < |keys| => Group(keys[i], Members(rows, groupKey, keys[i])))
  }

  lemma {:induction false} ReferenceGroupKeys(rows: seq<MappedRow>, groupKey: string)
    ensures GroupKeys(ReferenceGroups(rows, groupKey)) == Distinct(RowKeys(rows, groupKey))
  {
  }

  lemma {:induction false} MembersSnoc(rows: seq<MappedRow>, groupKey: string, k: string)
    requires |rows| > 0
    ensures var n := |rows| - 1;
            Members(rows, groupKey, k) ==
            Members(rows[..n], groupKey, k) + (if FieldText(rows[n], groupKey) == k then [rows[n]] else [])
  {
    var n := |rows| - 1;
    var p := (r: MappedRow) => FieldText(r, groupKey) == k;
    assert rows == rows[..n] + [rows[n]];
    FilterAppend(rows[..n], [rows[n]], p);
    FilterSingle(rows[n], p);
  }

  /** A key no row carries has no members. */
  lemma {:induction false} MembersAbsent(rows: seq<MappedRow>, groupKey: string, k: string)
    requires k !in RowKeys(rows, groupKey)
    ensures Members(rows, groupKey, k) == []
  {
    var p := (r: MappedRow) => FieldText(r, groupKey) == k;
    forall r | r in rows
      ensures !p(r)
    {
      var i :| 0 <= i < |rows| && rows[i] == r;
      assert RowKeys(rows, groupKey)[i] == FieldText(r, groupKey);
    }
    if |Filter(rows, p)| > 0 {
      FilterMembers(rows, p, Filter(rows, p)[0]);
    }
  }

  /** Appending a row keeps the distinct keys when its key is known and
      appends the key otherwise. */
  lemma {:induction false} DistinctKeysSnoc(rows: seq<MappedRow>, groupKey: string)
    requires |rows| > 0
    ensures var n := |rows| - 1;
            var kx := FieldText(rows[n], groupKey);
            var d := Distinct(RowKeys(rows[..n], groupKey));
            Distinct(RowKeys(rows, groupKey)) == (if kx in d then d else d + [kx])
  {
    var n := |rows| - 1;
    assert RowKeys(rows, groupKey)[..n] == RowKeys(rows[..n], groupKey);
  }

  /** Appending a row extends the group of its key and no other. */
  lemma {:induction false} GroupsOfSnocRow(rows: seq<MappedRow>, groupKey: string, keys: seq<string>)
    requires |rows| > 0
    ensures var n := |rows| - 1;
            GroupsOf(rows, groupKey, keys) ==
            seq(|keys|, i requires 0 <= i < |keys| => Extend(GroupsOf(rows[..n], groupKey, keys)[i], FieldText(rows[n], groupKey), rows[n]))
  {
    var n := |rows| - 1;
    forall i | 0 <= i < |keys|
      ensures GroupsOf(rows, groupKey, keys)[i] == Extend(GroupsOf(rows[..n], groupKey, keys)[i], FieldText(rows[n], groupKey), rows[n])
    {
      MembersSnoc(rows, groupKey, keys[i]);
    }
  }

  /** One more key adds its group at the end. */
  lemma {:induction false} GroupsOfSnocKey(rows: seq<MappedRow>, groupKey: string, keys: seq<string>, k: string)
    ensures GroupsOf(rows, groupKey, keys + [k]) == GroupsOf(rows, groupKey, keys) + [Group(k, Members(rows, groupKey, k))]
  {
  }

  /** The fold step for a row whose key already has a group. */
  lemma {:induction false} CollectKnownKey(rows: seq<MappedRow>, groupKey: string)
    requires |rows| > 0
    requires CollectGroups(rows[..|rows| - 1], groupKey) == ReferenceGroups(rows[..|rows| - 1], groupKey)
    requires FieldText(rows[|rows| - 1], groupKey) in Distinct(RowKeys(rows[..|rows| - 1], groupKey))
    ensures CollectGroups(rows, groupKey) == ReferenceGroups(rows, groupKey)
  {
    var n := |rows| - 1;
    var prefix := rows[..n];
    var kx := FieldText(rows[n], groupKey);
    var d := Distinct(RowKeys(prefix, groupKey));
    var prev := GroupsOf(prefix, groupKey, d);
    DistinctKeysSnoc(rows, groupKey);
    ReferenceGroupKeys(prefix, groupKey);
    AddKnownKey(prev, kx, rows[n]);
    GroupsOfSnocRow(rows, groupKey, d);
  }

  /** The fold step for a row whose key opens a new group. */
  lemma {:induction false} CollectNewKey(rows: seq<MappedRow>, groupKey: string)
    requires |rows| > 0
    requires CollectGroups(rows[..|rows| - 1], groupKey) == ReferenceGroups(rows[..|rows| - 1], groupKey)
    requires FieldText(rows[|rows| - 1], groupKey) !in Distinct(RowKeys(rows[..|rows| - 1], groupKey))
    ensures CollectGroups(rows, groupKey) == ReferenceGroups(rows, groupKey)
  {
    var n := |rows| - 1;
    var prefix := rows[..n];
    var x := rows[n];
    var kx := FieldText(x, groupKey);
    var d := Distinct(RowKeys(prefix, groupKey));
    var prev := GroupsOf(prefix, groupKey, d);
    DistinctKeysSnoc(rows, groupKey);
    ReferenceGroupKeys(prefix, groupKey);
    AddNewKey(prev, kx, x);
    MembersAbsent(prefix, groupKey, kx);
    MembersSnoc(rows, groupKey, kx);
    assert Members(rows, groupKey, kx) == [x];
    GroupsOfSnocKey(rows, groupKey, d, kx);
    GroupsOfSnocRow(rows, groupKey, d);
    assert GroupsOf(rows, groupKey, d) == prev by {
      forall i | 0 <= i < |d|
        ensures GroupsOf(rows, groupKey, d)[i] == prev[i]
      {
        assert d[i] != kx;
      }
    }
  }

  /** The fold builds exactly the reference grouping. */
  lemma {:induction false} CollectGroupsIsReference(rows: seq<MappedRow>, groupKey: string)
    ensures CollectGroups(rows, groupKey) == ReferenceGroups(rows, groupKey)
  {
    if |rows| > 0 {
      var n := |rows| - 1;
      CollectGroupsIsReference(rows[..n], groupKey);
      if FieldText(rows[n], groupKey) in Distinct(RowKeys(rows[..n], groupKey)) {
        CollectKnownKey(rows, groupKey);
      } else {
        CollectNewKey(rows, groupKey);
      }
    }
  }

  /** The total number of rows held by the groups. */
  function MemberCount(groups: seq<Group>): nat {
    if |groups| == 0 then 0 else |groups[0].members| + MemberCount(groups[1..])
  }

  lemma {:induction false} AddToGroupsCount(groups: seq<Group>, k: string, row: MappedRow)
    ensures MemberCount(AddToGroups(groups, k, row)) == MemberCount(groups) + 1
  {
    if |groups| > 0 && groups[0].key != k {
      AddToGroupsCount(groups[1..], k, row);
      assert ([groups[0]] + AddToGroups(groups[1..], k, row))[1..] == AddToGroups(groups[1..], k, row);
    } else if |groups| > 0 {
      assert ([groups[0].(members := groups[0].members + [row])] + groups[1..])[1..] == groups[1..];
    }
  }

  /** All rows the groups hold, with multiplicity. */
  function MemberBag(groups: seq<Group>): multiset<MappedRow> {
    if |groups| == 0 then multiset{} else multiset(groups[0].members) + MemberBag(groups[1..])
  }

  lemma {:induction false} AddToGroupsBag(groups: seq<Group>, k: string, row: MappedRow)
    ensures MemberBag(AddToGroups(groups, k, row)) == MemberBag(groups) + multiset{row}
  {
    if |groups| > 0 && groups[0].key != k {
      AddToGroupsBag(groups[1..], k, row);
      assert ([groups[0]] + AddToGroups(groups[1..], k, row))[1..] == AddToGroups(groups[1..], k, row);
    } else if |groups| > 0 {
      assert ([groups[0].(members := groups[0].members + [row])] + groups[1..])[1..] == groups[1..];
    } else {
      assert [Group(k, [row])][1..] == [];
    }
  }

  /** The groups partition the rows: together they hold each row exactly
      as often as the input does. */
  lemma {:induction false} GroupsPartitionRows(rows: seq<MappedRow>, groupKey: string)
    ensures MemberBag(CollectGroups(rows, groupKey)) == multiset(rows)
    ensures MemberCount(CollectGroups(rows, groupKey)) == |rows|
  {
    if |rows| > 0 {
      var n := |rows| - 1;
      GroupsPartitionRows(rows[..n], groupKey);
      AddToGroupsCount(CollectGroups(rows[..n], groupKey), FieldText(rows[n], groupKey), rows[n]);
      AddToGroupsBag(CollectGroups(rows[..n], groupKey), FieldText(rows[n], groupKey), rows[n]);
      assert rows == rows[..n] + [rows[n]];
    }
  }

  // ---------------------------------------------------------------------
  // groupAndAggregate
  // ---------------------------------------------------------------------

  /** The first column whose key or source header is the group-by name. */
  function FindGroupColumn(columns: seq<ColumnDef>, groupBy: string): (r: Option<nat>)
    ensures r.None? <==> forall i :: 0 <= i < |columns| ==> columns[i].key != groupBy && columns[i].sourceHeader != groupBy
    ensures r.Some? ==> r.value < |columns| && (columns[r.value].key == groupBy || columns[r.value].sourceHeader == groupBy)
    ensures r.Some? ==> forall i :: 0 <= i < r.value ==> columns[i].key != groupBy && columns[i].sourceHeader != groupBy
  {
    if |columns| == 0 then None
    else if columns[0].key == groupBy || columns[0].sourceHeader == groupBy then Some(0)
    else
      match FindGroupColumn(columns[1..], groupBy)
      case None => None
      case Some(i) => Some(i + 1)
  }

  /** The values of one column across the rows of a group. */
  function ColumnValues(members: seq<MappedRow>, key: string): seq<string> {
    seq(|members|, i requires 0 <= i < |members| => FieldText(members[i], key))
  }

  /** The cell a group row gets for one column: the group's key for the
      group column, the column's aggregate otherwise. */
  function GroupCell(env: Env, aggMap: map<string, string>, groupKey: string, g: Group, col: ColumnDef): Value {
    if col.key == groupKey then Str(g.key)
    else Aggregate(env, ResolveAgg(ChooseAggName(aggMap, col)), ColumnValues(g.members, col.key))
  }

  /** The fields of a group row, assigned in column order. */
  function GroupFields(env: Env, columns: seq<ColumnDef>, aggMap: map<string, string>, groupKey: string, g: Group): map<string, Value> {
    if |columns| == 0 then map[]
    else
      var n := |columns| - 1;
      GroupFields(env, columns[..n], aggMap, groupKey, g)[columns[n].key := GroupCell(env, aggMap, groupKey, g, columns[n])]
  }

  /** The group column holds the group's key, whichever column with that
      key comes last. */
  lemma {:induction false} GroupFieldsKey(env: Env, columns: seq<ColumnDef>, aggMap: map<string, string>, groupKey: string, g: Group)
    requires exists i :: 0 <= i < |columns| && columns[i].key == groupKey
    ensures var fields := GroupFields(env, columns, aggMap, groupKey, g);
            groupKey in fields && fields[groupKey] == Str(g.key)
  {
    var n := |columns| - 1;
    if columns[n].key != groupKey {
      var i :| 0 <= i < |columns| && columns[i].key == groupKey;
      assert columns[..n][i].key == groupKey;
      GroupFieldsKey(env, columns[..n], aggMap, groupKey, g);
    }
  }

  /** The fields of a group row for a column whose key no later column
      repeats: the group key for the group column, else its aggregate. */
  lemma {:induction false} GroupFieldsColumn(env: Env, columns: seq<ColumnDef>, aggMap: map<string, string>, groupKey: string, g: Group, i: nat)
    requires i < |columns|
    requires forall j :: i < j < |columns| ==> columns[j].key != columns[i].key
    ensures var fields := GroupFields(env, columns, aggMap, groupKey, g);
            columns[i].key in fields && fields[columns[i].key] == GroupCell(env, aggMap, groupKey, g, columns[i])
  {
    var n := |columns| - 1;
    if i < n {
      assert columns[..n][i] == columns[i];
      GroupFieldsColumn(env, columns[..n], aggMap, groupKey, g, i);
    }
  }

  function GroupRow(env: Env, columns: seq<ColumnDef>, aggMap: map<string, string>, groupKey: string, g: Group): OutRow {
    OutRow(map[], Some(true), GroupFields(env, columns, aggMap, groupKey, g))
  }

  /** `groupAndAggregate`. Without a group-by name the rows pass through
      marked as not grouped; with a name no column matches they pass
      through untouched; otherwise there is one row per group. */
  function GroupAndAggregate(env: Env, columns: seq<ColumnDef>, aggMap: map<string, string>, groupBy: Option<string>, rows: seq<MappedRow>): (out: seq<OutRow>)
    ensures |out| <= |rows|
    ensures groupBy.None? || groupBy == Some("") ==>
              |out| == |rows| && forall i :: 0 <= i < |rows| ==> Unlift(out[i]) == rows[i] && out[i].isGroup == Some(false)
    ensures groupBy.Some? && groupBy.value != "" && FindGroupColumn(columns, groupBy.value).None? ==>
              |out| == |rows| && forall i :: 0 <= i < |rows| ==> Unlift(out[i]) == rows[i] && out[i].isGroup.None?
  {
    if groupBy.None? || groupBy.value == "" then
      seq(|rows|, i requires 0 <= i < |rows| => Lift(rows[i], Some(false)))
    else
      match FindGroupColumn(columns, groupBy.value)
      case None => seq(|rows|, i requires 0 <= i < |rows| => Lift(rows[i], None))
      case Some(gi) =>
        var groupKey := columns[gi].key;
        var groups := CollectGroups(rows, groupKey);
        CollectGroupsIsReference(rows, groupKey);
        assert |groups| <= |rows| by {
          assert |Distinct(RowKeys(rows, groupKey))| <= |RowKeys(rows, groupKey)|;
        }
        seq(|groups|, i requires 0 <= i < |groups| => GroupRow(env, columns, aggMap, groupKey, groups[i]))
  }

  /** With a matching group column there is exactly one output row per
      distinct key, in first-seen order; each is marked as a group, holds
      its key in the group column, and aggregates exactly the rows with
      that key. */
  lemma {:induction false} OneRowPerDistinctKey(env: Env, columns: seq<ColumnDef>, aggMap: map<string, string>, groupBy: string, rows: seq<MappedRow>)
    requires groupBy != "" && FindGroupColumn(columns, groupBy).Some?
    ensures var groupKey := columns[FindGroupColumn(columns, groupBy).value].key;
            var keys := Distinct(RowKeys(rows, groupKey));
            var out := GroupAndAggregate(env, columns, aggMap, Some(groupBy), rows);
            && |out| == |keys|
            && forall i :: 0 <= i < |out| ==>
                 && out[i].isGroup == Some(true)
                 && groupKey in out[i].fields && out[i].fields[groupKey] == Str(keys[i])
                 && out[i] == GroupRow(env, columns, aggMap, groupKey, Group(keys[i], Members(rows, groupKey, keys[i])))
  {
    var gi := FindGroupColumn(columns, groupBy).value;
    var groupKey := columns[gi].key;
    CollectGroupsIsReference(rows, groupKey);
    var keys := Distinct(RowKeys(rows, groupKey));
    forall i | 0 <= i < |keys|
      ensures var fields := GroupFields(env, columns, aggMap, groupKey, Group(keys[i], Members(rows, groupKey, keys[i])));
              groupKey in fields && fields[groupKey] == Str(keys[i])
    {
      GroupFieldsKey(env, columns, aggMap, groupKey, Group(keys[i], Members(rows, groupKey, keys[i])));
    }
  }
}
