/** The configuration mini-language: a `;` splitter that ignores separators
    inside `[...]`, column specifications `key: Header [k:v; ...]`, static
    filters `Column<>v`, `Column~v`, `Column=v`, and the aggregation map
    `key: fn; ...`. */
module Dsl {
  import opened Wrappers
  import opened Seqs
  import opened Strings

  // ---------------------------------------------------------------------
  // Splitting outside brackets
  // ---------------------------------------------------------------------

  /** Splitter state: the finished segments, the text of the segment being
      built and the bracket depth, which a stray `]` cannot push below 0. */
  datatype Splitter = Splitter(segments: seq<string>, current: string, depth: nat)

  const Fresh := Splitter([], "", 0)

  /** A finished piece, trimmed, unless it is blank. */
  function Segment(piece: string): Option<string> {
    if Trim(piece) == "" then None else Some(Trim(piece))
  }

  /** The trimmed non-blank pieces, in order. */
  function Segments(pieces: seq<string>): seq<string> {
    Choose(pieces, Segment)
  }

  /** `segments` with the piece in progress appended when it is not blank. */
  function Emit(segments: seq<string>, current: string): seq<string> {
    match Segment(current)
    case None => segments
    case Some(seg) => segments + [seg]
  }

  /** One character: brackets move the depth (clamped at 0) and a `;` at
      depth 0 ends the segment; every other character is kept. */
  function Step(st: Splitter, c: char): Splitter {
    var depth := if c == '[' then st.depth + 1
                 else if c == ']' then (if st.depth == 0 then 0 else st.depth - 1)
                 else st.depth;
    if c == ';' && depth == 0 then Splitter(Emit(st.segments, st.current), "", depth)
    else Splitter(st.segments, st.current + [c], depth)
  }

  function Feed(st: Splitter, s: string): Splitter
    decreases |s|
  {
    if |s| == 0 then st else Feed(Step(st, s[0]), s[1..])
  }

  predicate GoodSegments(segments: seq<string>) {
    forall i :: 0 <= i < |segments| ==> segments[i] != "" && IsTrimmed(segments[i])
  }

  /** Feeding keeps the segments found so far, adds only non-blank trimmed
      ones, and adds at most one per `;`. */
  lemma {:induction false} FeedSegments(st: Splitter, s: string)
    requires GoodSegments(st.segments)
    ensures var r := Feed(st, s);
            && st.segments <= r.segments
            && GoodSegments(r.segments)
            && |r.segments| <= |st.segments| + Count(s, ';')
    decreases |s|
  {
    if |s| > 0 {
      FeedSegments(Step(st, s[0]), s[1..]);
    }
  }

  /** `splitOutsideBrackets`: the value split at every `;` outside
      brackets, each piece trimmed and blank pieces dropped. */
  function SplitOutsideBrackets(value: string): (r: seq<string>)
    ensures GoodSegments(r)
    ensures |r| <= 1 + Count(value, ';')
  {
    FeedSegments(Fresh, value);
    var st := Feed(Fresh, value);
    Emit(st.segments, st.current)
  }

  predicate NoBrackets(s: string) {
    '[' !in s && ']' !in s
  }

  lemma {:induction false} EmitSegments(segments: seq<string>, current: string)
    ensures Emit(segments, current) == segments + Segments([current])
  {
    assert [current][1..] == [];
  }

  lemma {:induction false} SegmentsCons(x: string, xs: seq<string>)
    ensures Segments([x] + xs) == Segments([x]) + Segments(xs)
  {
    ChooseAppend([x], xs, Segment);
  }

  /** Without brackets the splitter is a plain split on `;`. */
  lemma {:induction false} FeedFlat(segments: seq<string>, current: string, s: string)
    requires NoBrackets(s)
    ensures var st := Feed(Splitter(segments, current, 0), s);
            var parts := Split(s, ';');
            Emit(st.segments, st.current) == segments + Segments([current + parts[0]] + parts[1..])
    decreases |s|, 1
  {
    if |s| == 0 {
      assert current + "" == current;
      EmitSegments(segments, current);
    } else if s[0] == ';' {
      FeedFlatSemicolon(segments, current, s);
    } else {
      FeedFlatOther(segments, current, s);
    }
  }

  lemma {:induction false} NoBracketsTail(s: string)
    requires |s| > 0 && NoBrackets(s)
    ensures NoBrackets(s[1..])
  {
    assert s == [s[0]] + s[1..];
  }

  lemma {:induction false} FeedFlatSemicolon(segments: seq<string>, current: string, s: string)
    requires NoBrackets(s) && |s| > 0 && s[0] == ';'
    ensures var st := Feed(Splitter(segments, current, 0), s);
            var parts := Split(s, ';');
            Emit(st.segments, st.current) == segments + Segments([current + parts[0]] + parts[1..])
    decreases |s|, 0
  {
    var parts := Split(s, ';');
    var rest := Split(s[1..], ';');
    var emitted := Emit(segments, current);
    var st := Feed(Splitter(emitted, "", 0), s[1..]);
    NoBracketsTail(s);
    assert Feed(Splitter(segments, current, 0), s) == st;
    calc {
      Emit(st.segments, st.current);
      { FeedFlat(emitted, "", s[1..]); }
      emitted + Segments(["" + rest[0]] + rest[1..]);
      { assert "" + rest[0] == rest[0];
        assert [rest[0]] + rest[1..] == rest; }
      emitted + Segments(rest);
      { EmitSegments(segments, current); }
      segments + (Segments([current]) + Segments(rest));
      { SegmentsCons(current, rest); }
      segments + Segments([current] + rest);
      { SplitAtSeparator(s, ';');
        assert current + parts[0] == current; }
      segments + Segments([current + parts[0]] + parts[1..]);
    }
  }

  lemma {:induction false} FeedFlatOther(segments: seq<string>, current: string, s: string)
    requires NoBrackets(s) && |s| > 0 && s[0] != ';'
    ensures var st := Feed(Splitter(segments, current, 0), s);
            var parts := Split(s, ';');
            Emit(st.segments, st.current) == segments + Segments([current + parts[0]] + parts[1..])
    decreases |s|, 0
  {
    var parts := Split(s, ';');
    var rest := Split(s[1..], ';');
    NoBracketsTail(s);
    assert Feed(Splitter(segments, current, 0), s) == Feed(Splitter(segments, current + [s[0]], 0), s[1..]);
    FeedFlat(segments, current + [s[0]], s[1..]);
    SplitAtOther(s, ';');
    assert current + [s[0]] + rest[0] == current + parts[0];
  }

  /** A value without brackets splits into its trimmed non-blank `;`-pieces. */
  lemma {:induction false} SplitFlat(value: string)
    requires NoBrackets(value)
    ensures SplitOutsideBrackets(value) == Segments(Split(value, ';'))
  {
    FeedFlat([], "", value);
    var parts := Split(value, ';');
    assert "" + parts[0] == parts[0];
    assert [parts[0]] + parts[1..] == parts;
  }

  /** How a character moves the bracket depth when no clamping happens. */
  function Delta(c: char): int {
    if c == '[' then 1 else if c == ']' then -1 else 0
  }

  /** The net change of depth across `s`. */
  function Net(s: string): int {
    if |s| == 0 then 0 else Delta(s[0]) + Net(s[1..])
  }

  /** Starting at depth `d`, the depth is above 0 before every character
      of `s`, so no `;` of `s` splits and no `]` of `s` is clamped. */
  predicate StaysOpen(d: int, s: string)
    decreases |s|
  {
    |s| == 0 || (d > 0 && StaysOpen(d + Delta(s[0]), s[1..]))
  }

  /** The body of a well-nested block `[body]`: its brackets match, so the
      depth never falls back to the block's own level inside it. */
  predicate Balanced(body: string) {
    StaysOpen(1, body) && Net(body) == 0
  }

  /** Inside open brackets nothing splits: the text is appended verbatim
      and the depth moves by the text's net change. */
  lemma {:induction false} FeedInside(st: Splitter, body: string)
    requires StaysOpen(st.depth, body)
    ensures var r := Feed(st, body);
            r.segments == st.segments && r.current == st.current + body && r.depth == st.depth + Net(body)
    decreases |body|
  {
    if |body| == 0 {
      assert st.current + body == st.current;
    } else {
      var next := Step(st, body[0]);
      assert next == Splitter(st.segments, st.current + [body[0]], st.depth + Delta(body[0]));
      FeedInside(next, body[1..]);
      assert st.current + [body[0]] + body[1..] == st.current + body;
    }
  }

  /** Raising the starting depth keeps a text open. */
  lemma {:induction false} StaysOpenDeeper(d: int, e: int, s: string)
    requires StaysOpen(d, s) && d <= e
    ensures StaysOpen(e, s)
    decreases |s|
  {
    if |s| > 0 {
      StaysOpenDeeper(d + Delta(s[0]), e + Delta(s[0]), s[1..]);
    }
  }

  /** A body without brackets is balanced. */
  lemma {:induction false} NoBracketsBalanced(body: string)
    requires NoBrackets(body)
    ensures StaysOpen(1, body) && Net(body) == 0
    decreases |body|
  {
    if |body| > 0 {
      NoBracketsTail(body);
      NoBracketsBalanced(body[1..]);
    }
  }

  /** A well-nested bracketed block, nested blocks included, joins the
      current segment whole, `;` included, and restores the depth. */
  lemma {:induction false} BracketBlock(st: Splitter, body: string)
    requires Balanced(body)
    ensures Feed(st, "[" + body + "]") == Splitter(st.segments, st.current + "[" + body + "]", st.depth)
  {
    var s := "[" + body + "]";
    var open := Step(st, '[');
    assert s[0] == '[' && s[1..] == body + "]";
    StaysOpenDeeper(1, open.depth, body);
    FeedInside(open, body);
    FeedAppend(open, body, "]");
    assert st.current + "[" + body + "]" == open.current + body + "]";
  }

  lemma {:induction false} FeedAppend(st: Splitter, a: string, b: string)
    ensures Feed(st, a + b) == Feed(Feed(st, a), b)
    decreases |a|
  {
    if |a| == 0 {
      assert a + b == b;
    } else {
      assert (a + b)[1..] == a[1..] + b;
      FeedAppend(Step(st, a[0]), a[1..], b);
    }
  }

  /** A `]` with no bracket open leaves the depth at 0, so a following `;`
      still splits. */
  lemma {:induction false} StrayCloseClamped(st: Splitter, s: string)
    requires st.depth == 0
    ensures Feed(st, "]" + s) == Feed(Splitter(st.segments, st.current + "]", 0), s)
  {
    assert ("]" + s)[0] == ']' && ("]" + s)[1..] == s;
  }

  // ---------------------------------------------------------------------
  // `key: value` pairs
  // ---------------------------------------------------------------------

  /** `s` cut at its first `:` into a trimmed key and a trimmed value;
      `None` when there is no `:`. */
  function SplitPair(s: string): (r: Option<(string, string)>)
    ensures r.None? <==> ':' !in s
    ensures r.Some? ==> ':' !in r.value.0 && IsTrimmed(r.value.0) && IsTrimmed(r.value.1)
  {
    match IndexOf(s, ':')
    case None => None
    case Some(i) =>
      TrimSubset(s[..i]);
      Some((Trim(s[..i]), Trim(s[i + 1..])))
  }

  /** A trimmed key without `:` written before `:` is read back, with the
      value trimmed. */
  lemma {:induction false} SplitPairJoin(key: string, value: string)
    requires ':' !in key && IsTrimmed(key)
    ensures SplitPair(key + ":" + value) == Some((key, Trim(value)))
  {
    var s := key + ":" + value;
    assert s[|key|] == ':';
    assert s[..|key|] == key;
    assert s[|key| + 1..] == value;
  }

  /** The value of the last piece whose key is `k`. */
  function LastValue(pieces: seq<string>, k: string): Option<string> {
    if |pieces| == 0 then None
    else
      match SplitPair(pieces[|pieces| - 1])
      case Some((key, value)) =>
        if key == k then Some(value) else LastValue(pieces[..|pieces| - 1], k)
      case None => LastValue(pieces[..|pieces| - 1], k)
  }

  // ---------------------------------------------------------------------
  // Column specifications
  // ---------------------------------------------------------------------

  datatype ColumnType = TextColumn | NumberColumn

  /** A table column: the record field it fills (`key`), the CSV header it
      reads, and its display options. */
  datatype ColumnDef = ColumnDef(
    key: string,
    sourceHeader: string,
    kind: ColumnType,
    decimals: int,
    locale: Option<string>,
    format: Option<string>,
    showColTotal: bool,
    showRowTotal: bool)

  /** The column before any option is applied. */
  function DefaultColumn(key: string, header: string): ColumnDef {
    ColumnDef(key, header, TextColumn, 0, None, None, false, false)
  }

  /** `v || null`. */
  function NonEmpty(v: string): Option<string> {
    if v == "" then None else Some(v)
  }

  function TypeOption(v: string): ColumnType {
    if v == "number" then NumberColumn else TextColumn
  }

  /** `parseInt(v, 10) || 0`. */
  function DecimalsOption(v: string): int {
    ParseInt(v).GetOr(0)
  }

  /** One option applied to a column; an unknown key changes nothing. */
  function ApplyOption(col: ColumnDef, k: string, v: string): ColumnDef {
    if k == "type" then col.(kind := TypeOption(v))
    else if k == "decimals" then col.(decimals := DecimalsOption(v))
    else if k == "locale" then col.(locale := NonEmpty(v))
    else if k == "format" then col.(format := NonEmpty(v))
    else if k == "showColTotal" then col.(showColTotal := v == "true")
    else if k == "showRowTotal" then col.(showRowTotal := v == "true")
    else col
  }

  /** The option pieces applied in order; pieces without `:` are skipped. */
  function ApplyOptions(col: ColumnDef, pieces: seq<string>): (r: ColumnDef)
    ensures r.key == col.key && r.sourceHeader == col.sourceHeader
  {
    if |pieces| == 0 then col
    else
      var prev := ApplyOptions(col, pieces[..|pieces| - 1]);
      match SplitPair(pieces[|pieces| - 1])
      case Some((k, v)) => ApplyOption(prev, k, v)
      case None => prev
  }

  /** The column each of whose options is given by the last piece naming
      it, or kept when no piece names it. */
  function Configure(col: ColumnDef, pieces: seq<string>): ColumnDef {
    col.(
      kind := match LastValue(pieces, "type") case Some(v) => TypeOption(v) case None => col.kind,
      decimals := match LastValue(pieces, "decimals") case Some(v) => DecimalsOption(v) case None => col.decimals,
      locale := match LastValue(pieces, "locale") case Some(v) => NonEmpty(v) case None => col.locale,
      format := match LastValue(pieces, "format") case Some(v) => NonEmpty(v) case None => col.format,
      showColTotal := match LastValue(pieces, "showColTotal") case Some(v) => v == "true" case None => col.showColTotal,
      showRowTotal := match LastValue(pieces, "showRowTotal") case Some(v) => v == "true" case None => col.showRowTotal)
  }

  /** Applying the options in order leaves every option at the value of
      the last piece that names it. */
  lemma {:induction false} ApplyOptionsLastWins(col: ColumnDef, pieces: seq<string>)
    ensures ApplyOptions(col, pieces) == Configure(col, pieces)
  {
    if |pieces| > 0 {
      ApplyOptionsLastWins(col, pieces[..|pieces| - 1]);
    }
  }

  predicate KnownOption(k: string) {
    k == "type" || k == "decimals" || k == "locale" || k == "format" || k == "showColTotal" || k == "showRowTotal"
  }

  lemma {:induction false} LastValueUnknown(pieces: seq<string>, k: string)
    requires forall i :: 0 <= i < |pieces| ==> SplitPair(pieces[i]).None? || SplitPair(pieces[i]).value.0 != k
    ensures LastValue(pieces, k).None?
  {
    if |pieces| > 0 {
      LastValueUnknown(pieces[..|pieces| - 1], k);
    }
  }

  /** Pieces that name no known option leave the column unchanged. */
  lemma {:induction false} UnknownOptionsIgnored(col: ColumnDef, pieces: seq<string>)
    requires forall i :: 0 <= i < |pieces| ==> SplitPair(pieces[i]).None? || !KnownOption(SplitPair(pieces[i]).value.0)
    ensures ApplyOptions(col, pieces) == col
  {
    ApplyOptionsLastWins(col, pieces);
    LastValueUnknown(pieces, "type");
    LastValueUnknown(pieces, "decimals");
    LastValueUnknown(pieces, "locale");
    LastValueUnknown(pieces, "format");
    LastValueUnknown(pieces, "showColTotal");
    LastValueUnknown(pieces, "showRowTotal");
  }

  /** The right-hand side of a column spec holds an option block: some `[`
      comes before some `]`. */
  predicate HasOptionBlock(right: string) {
    exists i, j :: 0 <= i < j < |right| && right[i] == '[' && right[j] == ']'
  }

  /** The source header and the option text of a column's right-hand side:
      the header is the trimmed text before the first `[` and the options
      lie strictly between it and the last `]`; without such a block the
      whole side is the header. */
  function HeaderAndOptions(right: string): (r: (string, string)) {
    match (IndexOf(right, '['), LastIndexOf(right, ']'))
    case (Some(b), Some(e)) =>
      if e > b then (Trim(right[..b]), right[b + 1..e]) else (right, "")
    case _ => (right, "")
  }

  /** An option block puts the first `[` before the last `]`. */
  lemma {:induction false} OptionBlockBounds(right: string)
    requires HasOptionBlock(right)
    ensures IndexOf(right, '[').Some? && LastIndexOf(right, ']').Some?
    ensures IndexOf(right, '[').value < LastIndexOf(right, ']').value
  {
    var i, j :| 0 <= i < j < |right| && right[i] == '[' && right[j] == ']';
    assert right[i] in right && right[j] in right;
  }

  /** A string cut at two positions `b < e` into the text before `b`, the
      character at `b`, the text between, the character at `e` and the rest. */
  lemma {:induction false} Bracketed(s: string, b: nat, e: nat)
    requires b < e < |s|
    ensures s == s[..b] + [s[b]] + s[b + 1..e] + [s[e]] + s[e + 1..]
  {
    assert s[..e] == s[..b] + [s[b]] + s[b + 1..e];
    assert s == s[..e] + [s[e]] + s[e + 1..];
  }

  /** Reading the header and options back: with an option block the side is
      `pre [options] post` with no `[` in `pre` and no `]` in `post`, and
      the header is `pre` trimmed; without one the header is the whole side
      and there are no options. */
  lemma {:induction false} HeaderAndOptionsSplit(right: string)
    ensures var (header, options) := HeaderAndOptions(right);
            if HasOptionBlock(right) then
              exists pre, post :: right == pre + "[" + options + "]" + post && '[' !in pre && ']' !in post && header == Trim(pre)
            else header == right && options == ""
  {
    if HasOptionBlock(right) {
      OptionBlockBounds(right);
      var b := IndexOf(right, '[').value;
      var e := LastIndexOf(right, ']').value;
      var (header, options) := HeaderAndOptions(right);
      assert header == Trim(right[..b]) && options == right[b + 1..e];
      var pre, post := right[..b], right[e + 1..];
      assert '[' !in pre && ']' !in post;
      Bracketed(right, b, e);
      assert right == pre + "[" + options + "]" + post && '[' !in pre && ']' !in post && header == Trim(pre);
    }
  }

  /** One segment of the columns attribute, `key: Header [k:v; ...]`;
      `None` when it has no `:`. */
  function ParseColumnSpec(segment: string): (r: Option<ColumnDef>)
    ensures r.None? <==> ':' !in segment
    ensures r.Some? ==> ':' !in r.value.key && IsTrimmed(r.value.key)
  {
    match SplitPair(segment)
    case None => None
    case Some((key, right)) =>
      var (header, options) := HeaderAndOptions(right);
      var col := DefaultColumn(key, header);
      Some(if Trim(options) == "" then col else ApplyOptions(col, Split(options, ';')))
  }

  /** `parseColumns`: the column specs in order, segments without `:`
      skipped. */
  function ParseColumns(value: string): (r: seq<ColumnDef>)
    ensures |r| <= |SplitOutsideBrackets(value)|
    ensures forall i :: 0 <= i < |r| ==> ':' !in r[i].key && IsTrimmed(r[i].key)
  {
    var segments := SplitOutsideBrackets(value);
    var r := Choose(segments, ParseColumnSpec);
    ChooseSources(segments, ParseColumnSpec);
    r
  }

  /** A spec without an option block gives the default column. */
  lemma {:induction false} PlainColumnSpec(key: string, header: string)
    requires ':' !in key && IsTrimmed(key)
    requires IsTrimmed(header) && '[' !in header
    ensures ParseColumnSpec(key + ":" + header) == Some(DefaultColumn(key, header))
  {
    SplitPairJoin(key, header);
  }

  /** `header[options]` is trimmed and splits into the header and the
      options. */
  lemma {:induction false} BlockSide(header: string, options: string)
    requires IsTrimmed(header) && '[' !in header
    ensures var right := header + "[" + options + "]";
            IsTrimmed(right) && HeaderAndOptions(right) == (header, options)
  {
    var right := header + "[" + options + "]";
    assert right == header + ['['] + (options + "]");
    FirstAfterColumn(header, '[', options + "]");
    assert right[..|header|] == header;
    assert right[|header| + 1..|right| - 1] == options;
  }

  /** A spec with an option block gives the default column configured by
      the block's `;`-pieces, each option taken from the last piece naming
      it. */
  lemma {:induction false} ColumnSpecWithOptions(key: string, header: string, options: string)
    requires ':' !in key && IsTrimmed(key)
    requires IsTrimmed(header) && '[' !in header
    requires Trim(options) != ""
    ensures ParseColumnSpec(key + ":" + header + "[" + options + "]")
            == Some(Configure(DefaultColumn(key, header), Split(options, ';')))
  {
    var right := header + "[" + options + "]";
    assert key + ":" + header + "[" + options + "]" == key + ":" + right;
    BlockSide(header, options);
    SplitPairJoin(key, right);
    ApplyOptionsLastWins(DefaultColumn(key, header), Split(options, ';'));
  }

  // ---------------------------------------------------------------------
  // Static filters
  // ---------------------------------------------------------------------

  /** `eq` (`=`), `neq` (`<>`) and `contains` (`~`). */
  datatype Operator = Equal | NotEqual | ContainsText

  datatype StaticFilter = StaticFilter(column: string, op: Operator, value: string)

  /** One static filter segment. `<>` is looked for first, then `~`, then
      `=`; the first occurrence of the operator found splits the segment. */
  function ParseFilterSpec(segment: string): (r: Option<StaticFilter>)
    ensures r.None? <==> !Contains(segment, "<>") && '~' !in segment && '=' !in segment
    ensures r.Some? ==> (r.value.op == NotEqual <==> Contains(segment, "<>"))
    ensures r.Some? ==> (r.value.op == ContainsText <==> !Contains(segment, "<>") && '~' in segment)
    ensures r.Some? ==> IsTrimmed(r.value.column) && IsTrimmed(r.value.value)
  {
    match IndexOfString(segment, "<>")
    case Some(i) =>
      assert OccursAt(segment, "<>", i);
      Some(StaticFilter(Trim(segment[..i]), NotEqual, Trim(segment[i + 2..])))
    case None =>
      match IndexOf(segment, '~')
      case Some(i) => Some(StaticFilter(Trim(segment[..i]), ContainsText, Trim(segment[i + 1..])))
      case None =>
        match IndexOf(segment, '=')
        case Some(i) => Some(StaticFilter(Trim(segment[..i]), Equal, Trim(segment[i + 1..])))
        case None => None
  }

  /** `parseStaticFilters`: the filters of the segments that hold an
      operator, in order. */
  function ParseStaticFilters(value: string): (r: seq<StaticFilter>)
    ensures |r| <= |SplitOutsideBrackets(value)|
  {
    Choose(SplitOutsideBrackets(value), ParseFilterSpec)
  }

  function OperatorText(op: Operator): string {
    match op
    case Equal => "="
    case NotEqual => "<>"
    case ContainsText => "~"
  }

  /** The filter written back as a segment. */
  function FilterText(f: StaticFilter): string {
    f.column + OperatorText(f.op) + f.value
  }

  /** A filter whose column and value are trimmed and hold no operator
      character (the value may hold `=`), and no `;` or bracket. */
  predicate WritableFilter(f: StaticFilter) {
    && IsTrimmed(f.column) && IsTrimmed(f.value)
    && (forall c :: c in f.column ==> c !in "<>~=;[]")
    && (forall c :: c in f.value ==> c !in "<>~;[]")
  }

  lemma {:induction false} NoOccurrence(s: string, t: string)
    requires |t| > 0 && t[0] !in s
    ensures !Contains(s, t)
  {
    forall i: nat | i <= |s|
      ensures !OccursAt(s, t, i)
    {
      if i + |t| <= |s| {
        assert s[i..i + |t|][0] == s[i];
        assert s[i] in s;
      }
    }
  }

  /** The first occurrence of a one-character operator written after a
      column without it is the one written. */
  lemma {:induction false} FirstAfterColumn(column: string, c: char, value: string)
    requires c !in column
    ensures IndexOf(column + [c] + value, c) == Some(|column|)
  {
    var s := column + [c] + value;
    assert s[|column|] == c;
    assert s[..|column|] == column;
  }

  /** `<>` written after a column without `<` is found where it was
      written. */
  lemma {:induction false} NotEqualAfterColumn(column: string, value: string)
    requires '<' !in column
    ensures IndexOfString(column + "<>" + value, "<>") == Some(|column|)
  {
    var s := column + "<>" + value;
    assert s[|column|..|column| + 2] == "<>";
    assert OccursAt(s, "<>", |column|);
    forall k: nat | k < |column|
      ensures !OccursAt(s, "<>", k)
    {
      assert s[k] == column[k];
      assert column[k] in column;
    }
  }

  lemma {:induction false} NotEqualRoundTrip(f: StaticFilter)
    requires WritableFilter(f) && f.op == NotEqual
    ensures ParseFilterSpec(FilterText(f)) == Some(f)
  {
    var s := FilterText(f);
    var n := |f.column|;
    assert s == f.column + "<>" + f.value;
    assert s[..n] == f.column;
    assert s[n + 2..] == f.value;
    NotEqualAfterColumn(f.column, f.value);
  }

  lemma {:induction false} ContainsRoundTrip(f: StaticFilter)
    requires WritableFilter(f) && f.op == ContainsText
    ensures ParseFilterSpec(FilterText(f)) == Some(f)
  {
    var s := FilterText(f);
    var n := |f.column|;
    assert s == f.column + ['~'] + f.value;
    assert s[..n] == f.column;
    assert s[n + 1..] == f.value;
    assert '<' !in s;
    NoOccurrence(s, "<>");
    FirstAfterColumn(f.column, '~', f.value);
  }

  lemma {:induction false} EqualRoundTrip(f: StaticFilter)
    requires WritableFilter(f) && f.op == Equal
    ensures ParseFilterSpec(FilterText(f)) == Some(f)
  {
    var s := FilterText(f);
    var n := |f.column|;
    assert s == f.column + ['='] + f.value;
    assert s[..n] == f.column;
    assert s[n + 1..] == f.value;
    assert '<' !in s && '~' !in s;
    NoOccurrence(s, "<>");
    FirstAfterColumn(f.column, '=', f.value);
  }

  /** A written filter reads back as the same filter. */
  lemma {:induction false} FilterRoundTrip(f: StaticFilter)
    requires WritableFilter(f)
    ensures ParseFilterSpec(FilterText(f)) == Some(f)
  {
    match f.op
    case NotEqual => NotEqualRoundTrip(f);
    case ContainsText => ContainsRoundTrip(f);
    case Equal => EqualRoundTrip(f);
  }

  /** The filters written as one `;`-separated attribute value. */
  function FiltersText(fs: seq<StaticFilter>): string {
    Join(seq(|fs|, i requires 0 <= i < |fs| => FilterText(fs[i])), ';')
  }

  /** A written filter is a trimmed, non-blank segment without `;` or
      brackets. */
  lemma {:induction false} FilterTextSegment(f: StaticFilter)
    requires WritableFilter(f)
    ensures var t := FilterText(f);
            IsTrimmed(t) && t != "" && ';' !in t && NoBrackets(t) && Segment(t) == Some(t)
  {
    var t := FilterText(f);
    var sym := OperatorText(f.op);
    assert t == f.column + sym + f.value;
    assert forall c :: c in t ==> c in f.column || c in sym || c in f.value;
    assert IsTrimmed(t) by {
      if |f.column| > 0 {
        assert t[0] == f.column[0];
      } else {
        assert t[0] == sym[0];
      }
      if |f.value| > 0 {
        assert t[|t| - 1] == f.value[|f.value| - 1];
      } else {
        assert t[|t| - 1] == sym[|sym| - 1];
      }
    }
  }

  /** Writable filters written as an attribute value read back as the same
      filters, in order. */
  lemma {:induction false} StaticFiltersRoundTrip(fs: seq<StaticFilter>)
    requires forall i :: 0 <= i < |fs| ==> WritableFilter(fs[i])
    ensures ParseStaticFilters(FiltersText(fs)) == fs
  {
    var texts := seq(|fs|, i requires 0 <= i < |fs| => FilterText(fs[i]));
    forall i | 0 <= i < |fs|
      ensures IsTrimmed(texts[i]) && texts[i] != "" && ';' !in texts[i] && NoBrackets(texts[i])
      ensures Segment(texts[i]) == Some(texts[i]) && ParseFilterSpec(texts[i]) == Some(fs[i])
    {
      FilterTextSegment(fs[i]);
      FilterRoundTrip(fs[i]);
    }
    if |fs| == 0 {
      assert FiltersText(fs) == "";
      assert Feed(Fresh, "") == Fresh;
    } else {
      var text := FiltersText(fs);
      JoinAvoids(texts, ';', '[');
      JoinAvoids(texts, ';', ']');
      SplitFlat(text);
      SplitJoin(texts, ';');
      ChooseExact(texts, texts, Segment);
      ChooseExact(texts, fs, ParseFilterSpec);
    }
  }

  // ---------------------------------------------------------------------
  // Aggregation map
  // ---------------------------------------------------------------------

  /** The `key: fn` pieces folded into a map in order, the function name
      lower-cased; pieces without `:` are skipped. */
  function AggEntries(pieces: seq<string>): map<string, string> {
    if |pieces| == 0 then map[]
    else
      var m := AggEntries(pieces[..|pieces| - 1]);
      match SplitPair(pieces[|pieces| - 1])
      case Some((k, v)) => m[k := ToLower(v)]
      case None => m
  }

  /** `parseAgg`. */
  function ParseAgg(value: string): map<string, string> {
    AggEntries(SplitOutsideBrackets(value))
  }

  /** A key is in the map exactly when some piece names it, and then it
      holds the lower-cased value of the last such piece. */
  lemma {:induction false} AggLastWins(pieces: seq<string>, k: string)
    ensures k in AggEntries(pieces) <==> LastValue(pieces, k).Some?
    ensures k in AggEntries(pieces) ==> AggEntries(pieces)[k] == ToLower(LastValue(pieces, k).value)
  {
    if |pieces| > 0 {
      AggLastWins(pieces[..|pieces| - 1], k);
    }
  }
}
