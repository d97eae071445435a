/** The CSV loader: a character-by-character tokenizer for one line and the
    loader that turns a whole text into a rectangular header/rows table. It
    follows section 2 of RFC 4180 loosely: a doubled quote inside a quoted
    field stands for one quote (rule 7) and commas separate fields, but `'`
    also quotes, a quote opens only at the start of a field, every field is
    trimmed and no field spans lines. */
module Csv {
  import opened Wrappers
  import opened Strings

  predicate IsQuoteChar(c: char) {
    c == '"' || c == '\''
  }

  predicate NoQuoteChars(s: string) {
    forall i :: 0 <= i < |s| ==> !IsQuoteChar(s[i])
  }

  /** Tokenizer state: the finished fields, the field being built and the
      quote character that opened the current field, if it is still open. */
  datatype Lexer = Lexer(fields: seq<string>, current: string, quote: Option<char>)

  const Start := Lexer([], "", None)

  /** Runs the tokenizer over `s`, one character at a time; a doubled quote
      inside a quoted field is consumed as a pair. */
  function Scan(s: string, st: Lexer): Lexer
    decreases |s|
  {
    if |s| == 0 then st
    else
      var c := s[0];
      match st.quote
      case Some(q) =>
        if c == q then
          if |s| > 1 && s[1] == q then Scan(s[2..], st.(current := st.current + [q]))
          else Scan(s[1..], st.(quote := None))
        else Scan(s[1..], st.(current := st.current + [c]))
      case None =>
        if IsQuoteChar(c) && |st.current| == 0 then Scan(s[1..], st.(quote := Some(c)))
        else if c == ',' then Scan(s[1..], Lexer(st.fields + [Trim(st.current)], "", None))
        else Scan(s[1..], st.(current := st.current + [c]))
  }

  /** The fields a scan adds are trimmed, and there is at most one per comma;
      outside quotes and without quote characters there is exactly one per
      comma. */
  lemma {:induction false} ScanFields(s: string, st: Lexer)
    ensures var r := Scan(s, st);
            && st.fields <= r.fields
            && (forall i :: |st.fields| <= i < |r.fields| ==> IsTrimmed(r.fields[i]))
            && |r.fields| <= |st.fields| + Count(s, ',')
            && (st.quote.None? && NoQuoteChars(s) ==> r.quote.None? && |r.fields| == |st.fields| + Count(s, ','))
    decreases |s|
  {
    if |s| > 0 {
      var c := s[0];
      match st.quote
      case Some(q) =>
        if c == q && |s| > 1 && s[1] == q {
          assert s[1..][1..] == s[2..];
          ScanFields(s[2..], st.(current := st.current + [q]));
        } else if c == q {
          ScanFields(s[1..], st.(quote := None));
        } else {
          ScanFields(s[1..], st.(current := st.current + [c]));
        }
      case None =>
        if IsQuoteChar(c) && |st.current| == 0 {
          ScanFields(s[1..], st.(quote := Some(c)));
        } else if c == ',' {
          var next := Lexer(st.fields + [Trim(st.current)], "", None);
          ScanFields(s[1..], next);
        } else {
          ScanFields(s[1..], st.(current := st.current + [c]));
        }
    }
  }

  /** The fields of a finished scan: the field in progress is always emitted. */
  function Close(st: Lexer): seq<string> {
    st.fields + [Trim(st.current)]
  }

  /** `parseCsvLine`: one line of CSV into its trimmed fields. */
  function ParseCsvLine(line: string): (r: seq<string>)
    ensures 1 <= |r| <= 1 + Count(line, ',')
    ensures forall i :: 0 <= i < |r| ==> IsTrimmed(r[i])
    ensures NoQuoteChars(line) ==> |r| == 1 + Count(line, ',')
  {
    ScanFields(line, Start);
    Close(Scan(line, Start))
  }

  /** One tokenizer step outside quotes on a character that is not a quote. */
  lemma {:induction false} ScanStepUnquoted(s: string, st: Lexer)
    requires |s| > 0 && st.quote.None? && !IsQuoteChar(s[0])
    ensures Scan(s, st) == Scan(s[1..], if s[0] == ',' then Lexer(st.fields + [Trim(st.current)], "", None)
                                        else st.(current := st.current + [s[0]]))
  {
  }

  lemma {:induction false} MapTrimCons(x: string, xs: seq<string>)
    ensures MapTrim([x] + xs) == [Trim(x)] + MapTrim(xs)
  {
    assert ([x] + xs)[1..] == xs;
  }

  /** Without quote characters the scan is a split on commas followed by a trim. */
  lemma {:induction false} ScanUnquoted(s: string, fields: seq<string>, cur: string)
    requires NoQuoteChars(s)
    ensures var parts := Split(s, ',');
            Close(Scan(s, Lexer(fields, cur, None))) == fields + MapTrim([cur + parts[0]] + parts[1..])
    decreases |s|, 1
  {
    if |s| == 0 {
      assert cur + "" == cur;
      MapTrimCons(cur, []);
    } else if s[0] == ',' {
      ScanUnquotedComma(s, fields, cur);
    } else {
      ScanUnquotedOther(s, fields, cur);
    }
  }

  lemma {:induction false} ScanUnquotedComma(s: string, fields: seq<string>, cur: string)
    requires NoQuoteChars(s) && |s| > 0 && s[0] == ','
    ensures var parts := Split(s, ',');
            Close(Scan(s, Lexer(fields, cur, None))) == fields + MapTrim([cur + parts[0]] + parts[1..])
    decreases |s|, 0
  {
    var parts := Split(s, ',');
    var rest := Split(s[1..], ',');
    var l := Lexer(fields, cur, None);
    var l' := Lexer(fields + [Trim(cur)], "", None);
    calc {
      Close(Scan(s, l));
      { ScanStepUnquoted(s, l); }
      Close(Scan(s[1..], l'));
      { ScanUnquoted(s[1..], fields + [Trim(cur)], ""); }
      fields + [Trim(cur)] + MapTrim(["" + rest[0]] + rest[1..]);
      { assert "" + rest[0] == rest[0];
        assert [rest[0]] + rest[1..] == rest; }
      fields + ([Trim(cur)] + MapTrim(rest));
      { MapTrimCons(cur, rest); }
      fields + MapTrim([cur] + rest);
      { assert parts == [""] + rest;
        assert cur + parts[0] == cur; }
      fields + MapTrim([cur + parts[0]] + parts[1..]);
    }
  }

  lemma {:induction false} ScanUnquotedOther(s: string, fields: seq<string>, cur: string)
    requires NoQuoteChars(s) && |s| > 0 && s[0] != ','
    ensures var parts := Split(s, ',');
            Close(Scan(s, Lexer(fields, cur, None))) == fields + MapTrim([cur + parts[0]] + parts[1..])
    decreases |s|, 0
  {
    var parts := Split(s, ',');
    var rest := Split(s[1..], ',');
    var l := Lexer(fields, cur, None);
    var l' := Lexer(fields, cur + [s[0]], None);
    calc {
      Close(Scan(s, l));
      { ScanStepUnquoted(s, l); }
      Close(Scan(s[1..], l'));
      { ScanUnquoted(s[1..], fields, cur + [s[0]]); }
      fields + MapTrim([cur + [s[0]] + rest[0]] + rest[1..]);
      { assert parts == [[s[0]] + rest[0]] + rest[1..];
        assert cur + [s[0]] + rest[0] == cur + parts[0]; }
      fields + MapTrim([cur + parts[0]] + parts[1..]);
    }
  }

  /** A line without quote characters parses to its comma-separated pieces, trimmed. */
  lemma {:induction false} UnquotedLineIsSplit(line: string)
    requires NoQuoteChars(line)
    ensures ParseCsvLine(line) == MapTrim(Split(line, ','))
  {
    ScanUnquoted(line, [], "");
    var parts := Split(line, ',');
    assert "" + parts[0] == parts[0];
    assert [parts[0]] + parts[1..] == parts;
  }

  /** A field that survives a plain comma-join unchanged. */
  predicate PlainField(f: string) {
    IsTrimmed(f) && ',' !in f && NoQuoteChars(f)
  }

  /** Joining plain fields with commas and parsing gives the fields back. */
  lemma {:induction false} PlainRoundTrip(fields: seq<string>)
    requires |fields| >= 1
    requires forall i :: 0 <= i < |fields| ==> PlainField(fields[i])
    ensures ParseCsvLine(Join(fields, ',')) == fields
  {
    var line := Join(fields, ',');
    JoinAvoids(fields, ',', '"');
    JoinAvoids(fields, ',', '\'');
    UnquotedLineIsSplit(line);
    SplitJoin(fields, ',');
    MapTrimTrimmed(fields);
  }

  /** `f` with every quote character `q` doubled, as rule 7 of RFC 4180
      escapes `"`. */
  function Escape(f: string, q: char): string {
    if |f| == 0 then "" else (if f[0] == q then [q, q] else [f[0]]) + Escape(f[1..], q)
  }

  /** `f` written as a field quoted with `q`. */
  function Quote(f: string, q: char): string {
    [q] + Escape(f, q) + [q]
  }

  function QuoteAll(fields: seq<string>, q: char): (r: seq<string>)
    ensures |r| == |fields|
    ensures forall i :: 0 <= i < |fields| ==> r[i] == Quote(fields[i], q)
  {
    if |fields| == 0 then [] else [Quote(fields[0], q)] + QuoteAll(fields[1..], q)
  }

  /** Outside quotes, a quote character after the start of a field is an
      ordinary character of the field. */
  lemma {:induction false} LateQuoteIsLiteral(s: string, st: Lexer)
    requires |s| > 0 && IsQuoteChar(s[0])
    requires st.quote.None? && |st.current| > 0
    ensures Scan(s, st) == Scan(s[1..], st.(current := st.current + [s[0]]))
  {
  }

  /** Inside a field quoted with `q` the escaped text is read back literally
      and the closing quote leaves the quoted state. */
  lemma {:induction false} ScanEscaped(f: string, q: char, rest: string, fields: seq<string>, cur: string)
    requires |rest| == 0 || rest[0] != q
    ensures Scan(Escape(f, q) + [q] + rest, Lexer(fields, cur, Some(q))) == Scan(rest, Lexer(fields, cur + f, None))
  {
    var s := Escape(f, q) + [q] + rest;
    if |f| == 0 {
      assert s == [q] + rest;
      assert s[1..] == rest;
      assert cur + f == cur;
    } else {
      var tail := Escape(f[1..], q) + [q] + rest;
      ScanEscaped(f[1..], q, rest, fields, cur + [f[0]]);
      assert cur + [f[0]] + f[1..] == cur + f;
      if f[0] == q {
        assert s == [q, q] + tail;
        assert s[2..] == tail;
      } else {
        assert s == [f[0]] + tail;
        assert s[1..] == tail;
      }
    }
  }

  /** A quoted field opened at the start of a field is read up to its
      closing quote. */
  lemma {:induction false} ScanQuotedField(f: string, q: char, rest: string, fields: seq<string>)
    requires IsQuoteChar(q)
    requires |rest| == 0 || rest[0] != q
    ensures Scan(Quote(f, q) + rest, Lexer(fields, "", None)) == Scan(rest, Lexer(fields, f, None))
  {
    var line := Quote(f, q) + rest;
    assert line == [q] + (Escape(f, q) + [q] + rest);
    assert line[1..] == Escape(f, q) + [q] + rest;
    ScanEscaped(f, q, rest, fields, "");
    assert "" + f == f;
  }

  /** Scanning comma-joined quoted fields yields each field, trimmed. */
  lemma {:induction false} ScanQuoted(fs: seq<string>, q: char, fields: seq<string>)
    requires IsQuoteChar(q)
    requires |fs| >= 1
    ensures Close(Scan(Join(QuoteAll(fs, q), ','), Lexer(fields, "", None))) == fields + MapTrim(fs)
    decreases |fs|, 1
  {
    if |fs| == 1 {
      ScanQuotedLast(fs[0], q, fields);
      assert fs == [fs[0]];
    } else {
      ScanQuotedMore(fs, q, fields);
    }
  }

  lemma {:induction false} ScanQuotedLast(f: string, q: char, fields: seq<string>)
    requires IsQuoteChar(q)
    ensures Close(Scan(Join(QuoteAll([f], q), ','), Lexer(fields, "", None))) == fields + MapTrim([f])
  {
    assert Join(QuoteAll([f], q), ',') == Quote(f, q) + "";
    ScanQuotedField(f, q, "", fields);
  }

  /** A quoted field followed by a comma closes the field and scans on. */
  lemma {:induction false} ScanQuotedComma(f: string, q: char, more: string, fields: seq<string>)
    requires IsQuoteChar(q)
    ensures Scan(Quote(f, q) + ([','] + more), Lexer(fields, "", None)) == Scan(more, Lexer(fields + [Trim(f)], "", None))
  {
    ScanQuotedField(f, q, [','] + more, fields);
    assert ([','] + more)[1..] == more;
  }

  lemma {:induction false} ScanQuotedMore(fs: seq<string>, q: char, fields: seq<string>)
    requires IsQuoteChar(q)
    requires |fs| >= 2
    ensures Close(Scan(Join(QuoteAll(fs, q), ','), Lexer(fields, "", None))) == fields + MapTrim(fs)
    decreases |fs|, 0
  {
    var f := fs[0];
    var more := Join(QuoteAll(fs[1..], q), ',');
    calc {
      Close(Scan(Join(QuoteAll(fs, q), ','), Lexer(fields, "", None)));
      { assert QuoteAll(fs, q)[1..] == QuoteAll(fs[1..], q);
        assert Join(QuoteAll(fs, q), ',') == Quote(f, q) + ([','] + more); }
      Close(Scan(Quote(f, q) + ([','] + more), Lexer(fields, "", None)));
      { ScanQuotedComma(f, q, more, fields); }
      Close(Scan(more, Lexer(fields + [Trim(f)], "", None)));
      { ScanQuoted(fs[1..], q, fields + [Trim(f)]); }
      fields + [Trim(f)] + MapTrim(fs[1..]);
      { MapTrimCons(f, fs[1..]);
        assert fs == [f] + fs[1..]; }
      fields + MapTrim(fs);
    }
  }

  /** Any fields, quoted with either quote character and comma-joined, parse
      back to the fields trimmed; commas and both quote characters may
      appear inside them. */
  lemma {:induction false} QuotedRoundTrip(fs: seq<string>, q: char)
    requires IsQuoteChar(q)
    requires |fs| >= 1
    ensures ParseCsvLine(Join(QuoteAll(fs, q), ',')) == MapTrim(fs)
  {
    ScanQuoted(fs, q, []);
  }

  /** `w` is a way the tokenizer accepts to write the field `f`: as itself
      when it is plain, or quoted with either quote character. */
  predicate WrittenAs(w: string, f: string) {
    (w == f && PlainField(f)) || w == Quote(f, '"') || w == Quote(f, '\'')
  }

  /** A plain stretch of text is appended to the current field. */
  lemma {:induction false} ScanPlain(f: string, rest: string, fields: seq<string>, cur: string)
    requires NoQuoteChars(f) && ',' !in f
    ensures Scan(f + rest, Lexer(fields, cur, None)) == Scan(rest, Lexer(fields, cur + f, None))
    decreases |f|
  {
    if |f| == 0 {
      assert f + rest == rest;
      assert cur + f == cur;
    } else {
      var s := f + rest;
      assert s[0] == f[0] && s[1..] == f[1..] + rest;
      ScanStepUnquoted(s, Lexer(fields, cur, None));
      ScanPlain(f[1..], rest, fields, cur + [f[0]]);
      assert cur + [f[0]] + f[1..] == cur + f;
    }
  }

  /** A written field at the start of a field, followed by the end of the
      line or a comma, is read as the field. */
  lemma {:induction false} ScanHead(w: string, f: string, rest: string, fields: seq<string>)
    requires WrittenAs(w, f)
    requires |rest| == 0 || rest[0] == ','
    ensures Scan(w + rest, Lexer(fields, "", None)) == Scan(rest, Lexer(fields, f, None))
  {
    if w == Quote(f, '"') {
      ScanQuotedField(f, '"', rest, fields);
    } else if w == Quote(f, '\'') {
      ScanQuotedField(f, '\'', rest, fields);
    } else {
      ScanPlain(f, rest, fields, "");
      assert "" + f == f;
    }
  }

  /** Scanning comma-joined written fields yields each field, trimmed. */
  lemma {:induction false} ScanWritten(ws: seq<string>, fs: seq<string>, fields: seq<string>)
    requires |ws| == |fs| >= 1
    requires forall i :: 0 <= i < |ws| ==> WrittenAs(ws[i], fs[i])
    ensures Close(Scan(Join(ws, ','), Lexer(fields, "", None))) == fields + MapTrim(fs)
    decreases |ws|, 1
  {
    if |ws| == 1 {
      ScanWrittenLast(ws[0], fs[0], fields);
      assert ws == [ws[0]] && fs == [fs[0]];
    } else {
      ScanWrittenMore(ws, fs, fields);
    }
  }

  lemma {:induction false} ScanWrittenLast(w: string, f: string, fields: seq<string>)
    requires WrittenAs(w, f)
    ensures Close(Scan(Join([w], ','), Lexer(fields, "", None))) == fields + MapTrim([f])
  {
    assert Join([w], ',') == w + "";
    ScanHead(w, f, "", fields);
  }

  /** A written field followed by a comma closes the field and scans on. */
  lemma {:induction false} ScanWrittenComma(w: string, f: string, more: string, fields: seq<string>)
    requires WrittenAs(w, f)
    ensures Scan(w + ([','] + more), Lexer(fields, "", None)) == Scan(more, Lexer(fields + [Trim(f)], "", None))
  {
    ScanHead(w, f, [','] + more, fields);
    assert ([','] + more)[1..] == more;
  }

  lemma {:induction false} ScanWrittenMore(ws: seq<string>, fs: seq<string>, fields: seq<string>)
    requires |ws| == |fs| >= 2
    requires forall i :: 0 <= i < |ws| ==> WrittenAs(ws[i], fs[i])
    ensures Close(Scan(Join(ws, ','), Lexer(fields, "", None))) == fields + MapTrim(fs)
    decreases |ws|, 0
  {
    var more := Join(ws[1..], ',');
    calc {
      Close(Scan(Join(ws, ','), Lexer(fields, "", None)));
      { assert Join(ws, ',') == ws[0] + ([','] + more); }
      Close(Scan(ws[0] + ([','] + more), Lexer(fields, "", None)));
      { assert WrittenAs(ws[0], fs[0]);
        ScanWrittenComma(ws[0], fs[0], more, fields); }
      Close(Scan(more, Lexer(fields + [Trim(fs[0])], "", None)));
      { assert forall i :: 0 <= i < |ws| - 1 ==> ws[1..][i] == ws[i + 1] && fs[1..][i] == fs[i + 1];
        ScanWritten(ws[1..], fs[1..], fields + [Trim(fs[0])]); }
      fields + [Trim(fs[0])] + MapTrim(fs[1..]);
      { MapTrimCons(fs[0], fs[1..]);
        assert fs == [fs[0]] + fs[1..]; }
      fields + MapTrim(fs);
    }
  }

  /** Any line whose fields are each written plain or quoted with either
      quote character, mixed freely, parses back to the fields trimmed: one
      field per written field. */
  lemma {:induction false} MixedRoundTrip(ws: seq<string>, fs: seq<string>)
    requires |ws| == |fs| >= 1
    requires forall i :: 0 <= i < |ws| ==> WrittenAs(ws[i], fs[i])
    ensures ParseCsvLine(Join(ws, ',')) == MapTrim(fs)
    ensures |ParseCsvLine(Join(ws, ','))| == |ws|
  {
    ScanWritten(ws, fs, []);
  }

  /** A plain field, a quoted field holding a comma and another plain field. */
  lemma {:induction false} MixedLineExample()
    ensures ParseCsvLine("a,\"b,c\",d") == ["a", "b,c", "d"]
  {
    var ws := ["a", Quote("b,c", '"'), "d"];
    var fs := ["a", "b,c", "d"];
    assert Quote("b,c", '"') == "\"b,c\"";
    assert Join(ws, ',') == "a,\"b,c\",d";
    assert PlainField("a") && PlainField("d");
    MixedRoundTrip(ws, fs);
    MapTrimTrimmed(fs);
  }

  /** A parsed table: the header fields and the data rows. */
  datatype CsvTable = CsvTable(headers: seq<string>, rows: seq<seq<string>>)

  const EmptyTable := CsvTable([], [])

  /** The text with every carriage return removed (`replace(/\r/g, "")`). */
  function RemoveCarriageReturns(s: string): (r: string)
    ensures '\r' !in r
    ensures forall c :: c in r ==> c in s
    ensures '\r' !in s ==> r == s
  {
    if |s| == 0 then ""
    else (if s[0] == '\r' then "" else [s[0]]) + RemoveCarriageReturns(s[1..])
  }

  /** The lines of the text, without a final blank line. */
  function SourceLines(text: string): seq<string> {
    var lines := Split(RemoveCarriageReturns(text), '\n');
    if Trim(lines[|lines| - 1]) == "" then lines[..|lines| - 1] else lines
  }

  predicate IsBlank(line: string) {
    Trim(line) == ""
  }

  /** `fields` padded with empty strings, or cut, to exactly `width` cells. */
  function Fit(fields: seq<string>, width: nat): (r: seq<string>)
    ensures |r| == width
    ensures forall i :: 0 <= i < width ==> r[i] == (if i < |fields| then fields[i] else "")
  {
    if |fields| >= width then fields[..width]
    else fields + seq(width - |fields|, _ => "")
  }

  /** The lines that are not blank, in order. */
  function NonBlank(lines: seq<string>): (r: seq<string>)
    ensures |r| <= |lines|
    ensures forall i :: 0 <= i < |r| ==> !IsBlank(r[i])
  {
    if |lines| == 0 then []
    else (if IsBlank(lines[0]) then [] else [lines[0]]) + NonBlank(lines[1..])
  }

  lemma {:induction false} NonBlankAppend(a: seq<string>, b: seq<string>)
    ensures NonBlank(a + b) == NonBlank(a) + NonBlank(b)
  {
    if |a| > 0 {
      assert (a + b)[1..] == a[1..] + b;
      NonBlankAppend(a[1..], b);
    } else {
      assert a + b == b;
    }
  }

  /** A blank line contributes nothing, wherever it stands. */
  lemma {:induction false} BlankLineSkipped(a: seq<string>, blank: string, b: seq<string>)
    requires IsBlank(blank)
    ensures NonBlank(a + [blank] + b) == NonBlank(a + b)
  {
    NonBlankAppend(a + [blank], b);
    NonBlankAppend(a, [blank]);
    NonBlankAppend(a, b);
    assert NonBlank([blank]) == [];
  }

  /** A line that is not blank is kept. */
  lemma {:induction false} NonBlankKept(lines: seq<string>)
    requires forall i :: 0 <= i < |lines| ==> !IsBlank(lines[i])
    ensures NonBlank(lines) == lines
  {
    if |lines| > 0 {
      NonBlankKept(lines[1..]);
    }
  }

  /** Every line fitted to `width` cells. */
  function FitRows(lines: seq<string>, width: nat): (rows: seq<seq<string>>)
    ensures |rows| == |lines|
    ensures forall i :: 0 <= i < |rows| ==> rows[i] == Fit(ParseCsvLine(lines[i]), width)
  {
    if |lines| == 0 then [] else [Fit(ParseCsvLine(lines[0]), width)] + FitRows(lines[1..], width)
  }

  /** The data rows: blank lines are skipped and every other line becomes a
      row of exactly `width` cells. */
  function ParseRows(lines: seq<string>, width: nat): (rows: seq<seq<string>>)
    ensures |rows| <= |lines|
    ensures forall i :: 0 <= i < |rows| ==> |rows[i]| == width
  {
    FitRows(NonBlank(lines), width)
  }

  /** Text made only of whitespace has no lines or a blank first line. */
  lemma {:induction false} WhitespaceTextBlankFirstLine(text: string)
    ensures AllWhitespace(text) ==> |SourceLines(text)| == 0 || IsBlank(SourceLines(text)[0])
  {
    if AllWhitespace(text) {
      var clean := RemoveCarriageReturns(text);
      assert AllWhitespace(clean) by {
        forall i | 0 <= i < |clean|
          ensures IsWhitespace(clean[i])
        {
          assert clean[i] in clean;
        }
      }
      SplitWhitespace(clean, '\n');
      var lines := Split(clean, '\n');
      TrimEmptyIffWhitespace(lines[0]);
      TrimEmptyIffWhitespace(lines[|lines| - 1]);
    }
  }

  /** `parseCsv`: the first line is the header row, every later non-blank line
      a row of exactly as many cells as there are headers. */
  function ParseCsv(text: string): (t: CsvTable)
    ensures forall i :: 0 <= i < |t.rows| ==> |t.rows[i]| == |t.headers|
    ensures forall i :: 0 <= i < |t.headers| ==> IsTrimmed(t.headers[i])
    ensures |t.headers| == 0 ==> t == EmptyTable
    ensures |t.headers| == 0 <==> |SourceLines(text)| == 0 || IsBlank(SourceLines(text)[0])
    ensures AllWhitespace(text) ==> t == EmptyTable
  {
    var lines := SourceLines(text);
    if |lines| == 0 || IsBlank(lines[0]) then EmptyTable
    else
      var headers := MapTrim(ParseCsvLine(lines[0]));
      WhitespaceTextBlankFirstLine(text);
      CsvTable(headers, ParseRows(lines[1..], |headers|))
  }

  /** A field that a comma- and newline-joined text carries unchanged. */
  predicate CsvSafeField(f: string) {
    PlainField(f) && '\n' !in f && '\r' !in f
  }

  /** A record whose comma-joined line is not blank. */
  predicate SafeRecord(fields: seq<string>) {
    && |fields| >= 1
    && (forall i :: 0 <= i < |fields| ==> CsvSafeField(fields[i]))
    && (|fields| >= 2 || fields[0] != "")
  }

  /** The table written as comma-separated lines, each ended by a newline. */
  function Serialize(t: CsvTable): string {
    Join([Join(t.headers, ',')] + JoinRows(t.rows) + [""], '\n')
  }

  function JoinRows(rows: seq<seq<string>>): (r: seq<string>)
    ensures |r| == |rows|
    ensures forall i :: 0 <= i < |rows| ==> r[i] == Join(rows[i], ',')
  {
    if |rows| == 0 then [] else [Join(rows[0], ',')] + JoinRows(rows[1..])
  }

  /** A safe record's line is not blank, parses back to the record and holds
      no newline or carriage return. */
  lemma {:induction false} SafeRecordLine(fields: seq<string>)
    requires SafeRecord(fields)
    ensures !IsBlank(Join(fields, ','))
    ensures '\n' !in Join(fields, ',') && '\r' !in Join(fields, ',')
    ensures ParseCsvLine(Join(fields, ',')) == fields
  {
    var line := Join(fields, ',');
    JoinAvoids(fields, ',', '\n');
    JoinAvoids(fields, ',', '\r');
    PlainRoundTrip(fields);
    TrimEmptyIffWhitespace(line);
    if |fields| >= 2 {
      assert line == fields[0] + [','] + Join(fields[1..], ',');
      assert line[|fields[0]|] == ',';
    } else {
      assert line == fields[0];
      assert !IsWhitespace(line[0]);
    }
  }

  /** The serialized text splits back into the header line and the row lines. */
  lemma {:induction false} SerializedLines(t: CsvTable)
    requires SafeRecord(t.headers)
    requires forall i :: 0 <= i < |t.rows| ==> SafeRecord(t.rows[i])
    ensures SourceLines(Serialize(t)) == [Join(t.headers, ',')] + JoinRows(t.rows)
  {
    var headerLine := Join(t.headers, ',');
    var rowLines := JoinRows(t.rows);
    var all := [headerLine] + rowLines + [""];
    SafeRecordLine(t.headers);
    forall i | 0 <= i < |all|
      ensures '\n' !in all[i] && '\r' !in all[i]
    {
      if 0 < i < |all| - 1 {
        assert all[i] == rowLines[i - 1];
        SafeRecordLine(t.rows[i - 1]);
      }
    }
    var text := Join(all, '\n');
    JoinAvoids(all, '\n', '\r');
    assert RemoveCarriageReturns(text) == text;
    SplitJoin(all, '\n');
    assert all[..|all| - 1] == [headerLine] + rowLines;
  }

  /** Safe row lines parse back to the rows they were written from. */
  lemma {:induction false} RowsRoundTrip(rows: seq<seq<string>>, width: nat)
    requires forall i :: 0 <= i < |rows| ==> |rows[i]| == width && SafeRecord(rows[i])
    ensures ParseRows(JoinRows(rows), width) == rows
  {
    var rowLines := JoinRows(rows);
    forall i | 0 <= i < |rows|
      ensures !IsBlank(rowLines[i]) && ParseCsvLine(rowLines[i]) == rows[i]
    {
      SafeRecordLine(rows[i]);
    }
    NonBlankKept(rowLines);
    var r := FitRows(rowLines, width);
    assert forall i :: 0 <= i < |rows| ==> r[i] == rows[i];
  }

  /** Writing a table of safe fields and loading it back gives the same
      table. */
  lemma {:induction false} SerializeRoundTrip(t: CsvTable)
    requires SafeRecord(t.headers)
    requires forall i :: 0 <= i < |t.rows| ==> |t.rows[i]| == |t.headers| && SafeRecord(t.rows[i])
    ensures ParseCsv(Serialize(t)) == t
  {
    var headerLine := Join(t.headers, ',');
    SerializedLines(t);
    var lines := SourceLines(Serialize(t));
    assert lines[0] == headerLine;
    assert lines[1..] == JoinRows(t.rows);
    SafeRecordLine(t.headers);
    MapTrimTrimmed(t.headers);
    RowsRoundTrip(t.rows, |t.headers|);
  }
}
