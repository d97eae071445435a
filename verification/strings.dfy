/** The JavaScript string primitives the pipeline relies on: `trim`,
    `split` on one character, `indexOf`/`lastIndexOf`, `includes`,
    `toLowerCase` and `parseInt(_, 10)`. Strings are sequences of UTF-16
    code units in JavaScript and of characters here. */
module Strings {
  import opened Wrappers

  /** The characters `String.prototype.trim` removes: ECMAScript WhiteSpace
      and LineTerminator code points. */
  predicate IsWhitespace(c: char) {
    || c == ' ' || c == '\t' || c == '\n' || c == '\r'
    || c == '\U{000B}' || c == '\U{000C}' || c == '\U{00A0}' || c == '\U{1680}'
    || ('\U{2000}' <= c <= '\U{200A}')
    || c == '\U{2028}' || c == '\U{2029}' || c == '\U{202F}' || c == '\U{205F}'
    || c == '\U{3000}' || c == '\U{FEFF}'
  }

  predicate AllWhitespace(s: string) {
    forall i :: 0 <= i < |s| ==> IsWhitespace(s[i])
  }

  /** Neither end of `s` is whitespace. */
  predicate IsTrimmed(s: string) {
    |s| == 0 || (!IsWhitespace(s[0]) && !IsWhitespace(s[|s| - 1]))
  }

  /** `s` without its leading whitespace. */
  function TrimStart(s: string): (r: string)
    ensures |r| == 0 || !IsWhitespace(r[0])
  {
    if |s| > 0 && IsWhitespace(s[0]) then TrimStart(s[1..]) else s
  }

  /** `String.prototype.trim`: whitespace is removed from both ends. */
  function Trim(s: string): (r: string)
    ensures IsTrimmed(r)
    ensures IsTrimmed(s) ==> r == s
  {
    if |s| > 0 && IsWhitespace(s[0]) then Trim(s[1..])
    else if |s| > 0 && IsWhitespace(s[|s| - 1]) then Trim(s[..|s| - 1])
    else s
  }

  /** `s[a..b]` is `s` with only whitespace cut from its two ends. */
  predicate StripsOuterWhitespace(s: string, r: string, a: nat, b: nat) {
    && a <= b <= |s| && r == s[a..b]
    && (forall i :: 0 <= i < a ==> IsWhitespace(s[i]))
    && (forall i :: b <= i < |s| ==> IsWhitespace(s[i]))
  }

  /** Trimming cuts whitespace from the two ends of `s` and nothing else:
      the result is a slice of `s` with only whitespace outside it. */
  lemma {:induction false} TrimIsInnerSlice(s: string)
    ensures exists a: nat, b: nat :: StripsOuterWhitespace(s, Trim(s), a, b)
  {
    if |s| > 0 && IsWhitespace(s[0]) {
      TrimIsInnerSlice(s[1..]);
      var a: nat, b: nat :| StripsOuterWhitespace(s[1..], Trim(s[1..]), a, b);
      assert s[1..][a..b] == s[a + 1..b + 1];
      assert forall i :: 0 <= i < a + 1 ==> IsWhitespace(s[i]) by {
        forall i | 0 <= i < a + 1 ensures IsWhitespace(s[i]) {
          if i > 0 { assert s[i] == s[1..][i - 1]; }
        }
      }
      assert forall i :: b + 1 <= i < |s| ==> IsWhitespace(s[i]) by {
        forall i | b + 1 <= i < |s| ensures IsWhitespace(s[i]) {
          assert s[i] == s[1..][i - 1];
        }
      }
      assert StripsOuterWhitespace(s, Trim(s), a + 1, b + 1);
    } else if |s| > 0 && IsWhitespace(s[|s| - 1]) {
      var n := |s| - 1;
      TrimIsInnerSlice(s[..n]);
      var a: nat, b: nat :| StripsOuterWhitespace(s[..n], Trim(s[..n]), a, b);
      assert s[..n][a..b] == s[a..b];
      assert forall i :: b <= i < |s| ==> IsWhitespace(s[i]) by {
        forall i | b <= i < |s| ensures IsWhitespace(s[i]) {
          if i < n { assert s[i] == s[..n][i]; }
        }
      }
      assert StripsOuterWhitespace(s, Trim(s), a, b);
    } else {
      assert s[0..|s|] == s;
      assert StripsOuterWhitespace(s, Trim(s), 0, |s|);
    }
  }

  /** Trimming leaves nothing exactly when the text is all whitespace. */
  lemma {:induction false} TrimEmptyIffWhitespace(s: string)
    ensures Trim(s) == "" <==> AllWhitespace(s)
  {
    if |s| > 0 && IsWhitespace(s[0]) {
      TrimEmptyIffWhitespace(s[1..]);
      assert AllWhitespace(s) <==> AllWhitespace(s[1..]);
    } else if |s| > 0 && IsWhitespace(s[|s| - 1]) {
      TrimEmptyIffWhitespace(s[..|s| - 1]);
      assert AllWhitespace(s) <==> AllWhitespace(s[..|s| - 1]);
    }
  }

  /** Trimming only removes characters: every character left is one of `s`. */
  lemma {:induction false} TrimSubset(s: string)
    ensures forall c :: c in Trim(s) ==> c in s
  {
    if |s| > 0 && IsWhitespace(s[0]) {
      TrimSubset(s[1..]);
    } else if |s| > 0 && IsWhitespace(s[|s| - 1]) {
      TrimSubset(s[..|s| - 1]);
    }
  }

  /** `Trim` applied to every element. */
  function MapTrim(ss: seq<string>): (r: seq<string>)
    ensures |r| == |ss|
    ensures forall i :: 0 <= i < |ss| ==> r[i] == Trim(ss[i])
  {
    if |ss| == 0 then [] else [Trim(ss[0])] + MapTrim(ss[1..])
  }

  /** Trimming already-trimmed strings changes nothing. */
  lemma {:induction false} MapTrimTrimmed(ss: seq<string>)
    requires forall i :: 0 <= i < |ss| ==> IsTrimmed(ss[i])
    ensures MapTrim(ss) == ss
  {
    if |ss| > 0 {
      MapTrimTrimmed(ss[1..]);
    }
  }

  /** Number of occurrences of `c` in `s`. */
  function Count(s: string, c: char): nat {
    if |s| == 0 then 0 else (if s[0] == c then 1 else 0) + Count(s[1..], c)
  }

  /** `parts` joined with `sep` between neighbours (`Array.prototype.join`). */
  function Join(parts: seq<string>, sep: char): string {
    if |parts| == 0 then ""
    else if |parts| == 1 then parts[0]
    else parts[0] + [sep] + Join(parts[1..], sep)
  }

  /** `String.prototype.split` with a one-character separator: one more
      piece than there are separators, and joining the pieces back gives
      the input. */
  function Split(s: string, sep: char): (r: seq<string>)
    ensures |r| == 1 + Count(s, sep)
    ensures forall i :: 0 <= i < |r| ==> sep !in r[i]
    ensures Join(r, sep) == s
  {
    if |s| == 0 then [""]
    else
      var rest := Split(s[1..], sep);
      if s[0] == sep then
        assert Join([""] + rest, sep) == [sep] + Join(rest, sep) by {
          assert ([""] + rest)[1..] == rest;
        }
        [""] + rest
      else
        var r := [[s[0]] + rest[0]] + rest[1..];
        assert Join(r, sep) == s by {
          if |rest| > 1 {
            assert r[1..] == rest[1..];
            assert Join(rest, sep) == rest[0] + [sep] + Join(rest[1..], sep);
          }
        }
        r
  }

  /** The pieces of a text that starts with the separator: an empty first
      piece, then the pieces of the rest. */
  lemma {:induction false} SplitAtSeparator(s: string, sep: char)
    requires |s| > 0 && s[0] == sep
    ensures Split(s, sep) == [""] + Split(s[1..], sep)
  {
  }

  /** The pieces of a text that starts with another character: that
      character opens the first piece of the rest. */
  lemma {:induction false} SplitAtOther(s: string, sep: char)
    requires |s| > 0 && s[0] != sep
    ensures Split(s, sep) == [[s[0]] + Split(s[1..], sep)[0]] + Split(s[1..], sep)[1..]
  {
  }

  /** Splitting with no separator in the first `|p|` characters extends
      the first piece by `p`. */
  lemma {:induction false} SplitPrefix(p: string, t: string, sep: char)
    requires sep !in p
    ensures Split(p + t, sep) == [p + Split(t, sep)[0]] + Split(t, sep)[1..]
  {
    if |p| > 0 {
      assert (p + t)[1..] == p[1..] + t;
      assert (p + t)[0] == p[0] != sep;
      SplitPrefix(p[1..], t, sep);
      var r := Split(t, sep);
      var rest := Split(p[1..] + t, sep);
      assert rest == [p[1..] + r[0]] + r[1..];
      assert Split(p + t, sep) == [[p[0]] + rest[0]] + rest[1..];
      assert [p[0]] + (p[1..] + r[0]) == p + r[0];
    } else {
      assert p + t == t;
      var r := Split(t, sep);
      assert p + r[0] == r[0];
      assert [r[0]] + r[1..] == r;
    }
  }

  /** `Split` inverts `Join` when no part contains the separator. */
  lemma {:induction false} SplitJoin(parts: seq<string>, sep: char)
    requires |parts| >= 1
    requires forall i :: 0 <= i < |parts| ==> sep !in parts[i]
    ensures Split(Join(parts, sep), sep) == parts
  {
    if |parts| == 1 {
      SplitPrefix(parts[0], "", sep);
      assert parts[0] + "" == parts[0];
    } else {
      var rest := Join(parts[1..], sep);
      SplitJoin(parts[1..], sep);
      assert parts[0] + [sep] + rest == parts[0] + ([sep] + rest);
      SplitPrefix(parts[0], [sep] + rest, sep);
      assert ([sep] + rest)[1..] == rest;
      assert Split([sep] + rest, sep) == [""] + parts[1..];
      assert parts[0] + "" == parts[0];
      assert parts == [parts[0]] + parts[1..];
    }
  }

  /** A character that is neither the separator nor in any part is not in the join. */
  lemma {:induction false} JoinAvoids(parts: seq<string>, sep: char, c: char)
    requires c != sep
    requires forall i :: 0 <= i < |parts| ==> c !in parts[i]
    ensures c !in Join(parts, sep)
  {
    if |parts| > 1 {
      JoinAvoids(parts[1..], sep, c);
    }
  }

  /** Every piece of an all-whitespace string is all whitespace. */
  lemma {:induction false} SplitWhitespace(s: string, sep: char)
    requires AllWhitespace(s)
    ensures forall i :: 0 <= i < |Split(s, sep)| ==> AllWhitespace(Split(s, sep)[i])
  {
    if |s| > 0 {
      SplitWhitespace(s[1..], sep);
    }
  }

  /** `s.indexOf(c)`, with `None` for -1. */
  function IndexOf(s: string, c: char): (r: Option<nat>)
    ensures r.None? <==> c !in s
    ensures r.Some? ==> r.value < |s| && s[r.value] == c && c !in s[..r.value]
  {
    if |s| == 0 then None
    else if s[0] == c then Some(0)
    else
      match IndexOf(s[1..], c)
      case None => None
      case Some(i) =>
        assert s[..i + 1] == [s[0]] + s[1..][..i];
        Some(i + 1)
  }

  /** `s.lastIndexOf(c)`, with `None` for -1. */
  function LastIndexOf(s: string, c: char): (r: Option<nat>)
    ensures r.None? <==> c !in s
    ensures r.Some? ==> r.value < |s| && s[r.value] == c && c !in s[r.value + 1..]
  {
    if |s| == 0 then None
    else if s[|s| - 1] == c then Some(|s| - 1)
    else
      assert s == s[..|s| - 1] + [s[|s| - 1]];
      match LastIndexOf(s[..|s| - 1], c)
      case None => None
      case Some(i) =>
        assert s[i + 1..] == s[..|s| - 1][i + 1..] + [s[|s| - 1]];
        Some(i)
  }

  /** `t` occurs in `s` starting at position `i`. */
  predicate OccursAt(s: string, t: string, i: nat) {
    i + |t| <= |s| && s[i..i + |t|] == t
  }

  /** `s.includes(t)`. */
  predicate Contains(s: string, t: string) {
    exists i: nat | i <= |s| :: OccursAt(s, t, i)
  }

  /** `s.indexOf(t)` for a string `t`, with `None` for -1. */
  function IndexOfString(s: string, t: string, from: nat := 0): (r: Option<nat>)
    requires from <= |s|
    ensures r.None? <==> forall i: nat :: from <= i ==> !OccursAt(s, t, i)
    ensures r.Some? ==> from <= r.value && OccursAt(s, t, r.value)
    ensures r.Some? ==> forall i: nat :: from <= i < r.value ==> !OccursAt(s, t, i)
    decreases |s| - from
  {
    if OccursAt(s, t, from) then Some(from)
    else if from == |s| then
      assert forall i: nat :: from <= i ==> !OccursAt(s, t, i) by {
        forall i: nat | from <= i
          ensures !OccursAt(s, t, i)
        {
          if i > from {
            assert i + |t| > |s|;
          }
        }
      }
      None
    else IndexOfString(s, t, from + 1)
  }

  /** `toLowerCase` on one character; only the ASCII letters are folded. */
  function LowerChar(c: char): char {
    if 'A' <= c <= 'Z' then (c as int + 32) as char else c
  }

  function ToLower(s: string): (r: string)
    ensures |r| == |s|
    ensures forall i :: 0 <= i < |s| ==> r[i] == LowerChar(s[i])
  {
    if |s| == 0 then "" else [LowerChar(s[0])] + ToLower(s[1..])
  }

  predicate IsDigit(c: char) {
    '0' <= c <= '9'
  }

  function DigitValue(c: char): nat
    requires IsDigit(c)
  {
    c as int - '0' as int
  }

  /** The decimal digits of `n`, most significant first (`String(n)`). */
  function NatToString(n: nat): (r: string)
    ensures |r| >= 1
    ensures forall i :: 0 <= i < |r| ==> IsDigit(r[i])
    ensures n > 0 ==> r[0] != '0'
  {
    if n < 10 then [('0' as int + n) as char]
    else NatToString(n / 10) + [('0' as int + n % 10) as char]
  }

  /** The value of the leading decimal digits of `s`, and how many there are. */
  function DigitPrefix(s: string): (r: (nat, nat))
    ensures r.1 <= |s|
    ensures forall i :: 0 <= i < r.1 ==> IsDigit(s[i])
    ensures r.1 < |s| ==> !IsDigit(s[r.1])
  {
    if |s| == 0 || !IsDigit(s[0]) then (0, 0)
    else
      var n := |s| - 1;
      var p := DigitPrefix(s[..n]);
      if p.1 == n && IsDigit(s[n]) then (p.0 * 10 + DigitValue(s[n]), n + 1)
      else
        assert s[..n][..p.1] == s[..p.1];
        p
  }

  /** `parseInt(s, 10)`: leading whitespace, an optional sign, then at least
      one decimal digit; trailing text is ignored. `None` stands for `NaN`. */
  function ParseInt(s: string): Option<int> {
    var t := TrimStart(s);
    var neg := |t| > 0 && t[0] == '-';
    var unsigned := if |t| > 0 && (t[0] == '-' || t[0] == '+') then t[1..] else t;
    var (value, len) := DigitPrefix(unsigned);
    if len == 0 then None
    else
      var v: int := if neg then -(value as int) else value;
      Some(v)
  }

  lemma {:induction false} DigitPrefixNatToString(n: nat, rest: string)
    requires |rest| == 0 || !IsDigit(rest[0])
    ensures DigitPrefix(NatToString(n) + rest) == (n, |NatToString(n)|)
  {
    var d := NatToString(n);
    var s := d + rest;
    if n < 10 {
      assert s[..1] == d;
      assert DigitPrefix(d) == (n, 1);
      if |rest| > 0 {
        assert s[1] == rest[0];
        DigitPrefixStops(s, 1);
      } else {
        assert s == d;
      }
    } else {
      DigitPrefixNatToString(n / 10, "");
      assert NatToString(n / 10) + "" == NatToString(n / 10);
      var m := |d| - 1;
      assert d[..m] == NatToString(n / 10);
      assert DigitPrefix(d) == (n, |d|);
      if |rest| > 0 {
        assert s[..|d|] == d;
        assert s[|d|] == rest[0];
        DigitPrefixStops(s, |d|);
      } else {
        assert s == d;
      }
    }
  }

  /** The digit prefix of `s` is the digit prefix of its first `k`
      characters when `s[k]` is not a digit. */
  lemma {:induction false} DigitPrefixStops(s: string, k: nat)
    requires k < |s| && !IsDigit(s[k])
    ensures DigitPrefix(s) == DigitPrefix(s[..k])
    decreases |s|
  {
    var n := |s| - 1;
    if n > k {
      assert s[..n][..k] == s[..k];
      assert s[..n][k] == s[k];
      DigitPrefixStops(s[..n], k);
      var p := DigitPrefix(s[..n]);
      assert p.1 <= k;
    } else {
      assert s[..n] == s[..k];
    }
  }

  /** `parseInt(String(n), 10) == n`. */
  lemma {:induction false} ParseIntNatToString(n: nat)
    ensures ParseInt(NatToString(n)) == Some(n)
  {
    var d := NatToString(n);
    assert TrimStart(d) == d;
    DigitPrefixNatToString(n, "");
    assert d + "" == d;
  }
}
