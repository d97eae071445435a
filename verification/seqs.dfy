/** Generic sequence helpers shared by the parsers and the query engine. */
module Seqs {
  import opened Wrappers

  /** Keeps the `Some` results of `f`, in order (a `filter` followed by a `map`). */
  function Choose<A, B>(s: seq<A>, f: A -> Option<B>): (r: seq<B>)
    ensures |r| <= |s|
  {
    if |s| == 0 then []
    else
      match f(s[0])
      case Some(b) => [b] + Choose(s[1..], f)
      case None => Choose(s[1..], f)
  }

  /** Every kept value is the result of `f` on some element; nothing is
      kept when `f` rejects everything, and nothing dropped when it accepts
      everything. */
  lemma {:induction false} ChooseSources<A, B>(s: seq<A>, f: A -> Option<B>)
    ensures var r := Choose(s, f);
            && (forall i :: 0 <= i < |r| ==> exists j :: 0 <= j < |s| && f(s[j]) == Some(r[i]))
            && ((forall j :: 0 <= j < |s| ==> f(s[j]).None?) ==> r == [])
            && ((forall j :: 0 <= j < |s| ==> f(s[j]).Some?) ==> |r| == |s|)
  {
    if |s| > 0 {
      var r := Choose(s, f);
      var rest := Choose(s[1..], f);
      ChooseSources(s[1..], f);
      forall i | 0 <= i < |r|
        ensures exists j :: 0 <= j < |s| && f(s[j]) == Some(r[i])
      {
        if f(s[0]).Some? && i == 0 {
          assert f(s[0]) == Some(r[0]);
        } else {
          var k := if f(s[0]).Some? then i - 1 else i;
          assert r[i] == rest[k];
          var j :| 0 <= j < |s[1..]| && f(s[1..][j]) == Some(rest[k]);
          assert f(s[j + 1]) == Some(r[i]);
        }
      }
      if forall j :: 0 <= j < |s| ==> f(s[j]).None? {
        assert f(s[0]).None?;
        assert forall j :: 0 <= j < |s[1..]| ==> f(s[1..][j]).None? by {
          forall j | 0 <= j < |s[1..]| ensures f(s[1..][j]).None? { assert s[1..][j] == s[j + 1]; }
        }
      }
      if forall j :: 0 <= j < |s| ==> f(s[j]).Some? {
        assert f(s[0]).Some?;
        assert forall j :: 0 <= j < |s[1..]| ==> f(s[1..][j]).Some? by {
          forall j | 0 <= j < |s[1..]| ensures f(s[1..][j]).Some? { assert s[1..][j] == s[j + 1]; }
        }
      }
    }
  }

  lemma {:induction false} ChooseAppend<A, B>(a: seq<A>, b: seq<A>, f: A -> Option<B>)
    ensures Choose(a + b, f) == Choose(a, f) + Choose(b, f)
  {
    if |a| > 0 {
      assert (a + b)[1..] == a[1..] + b;
      ChooseAppend(a[1..], b, f);
    } else {
      assert a + b == b;
    }
  }

  /** When `f` maps every element to the matching element of `xs`, `Choose`
      gives exactly `xs`. */
  lemma {:induction false} ChooseExact<A, B>(s: seq<A>, xs: seq<B>, f: A -> Option<B>)
    requires |s| == |xs|
    requires forall i :: 0 <= i < |s| ==> f(s[i]) == Some(xs[i])
    ensures Choose(s, f) == xs
  {
    if |s| > 0 {
      ChooseExact(s[1..], xs[1..], f);
      assert f(s[0]) == Some(xs[0]);
      assert xs == [xs[0]] + xs[1..];
    }
  }

  /** `Array.prototype.filter`: the elements satisfying `p`, in order. */
  function Filter<T>(s: seq<T>, p: T -> bool): (r: seq<T>)
    ensures |r| <= |s|
  {
    if |s| == 0 then [] else (if p(s[0]) then [s[0]] else []) + Filter(s[1..], p)
  }

  /** Filtering distributes over concatenation; with `FilterSingle` this
      fixes the result as the satisfying elements in their original order. */
  lemma {:induction false} FilterAppend<T>(a: seq<T>, b: seq<T>, p: T -> bool)
    ensures Filter(a + b, p) == Filter(a, p) + Filter(b, p)
  {
    if |a| > 0 {
      assert (a + b)[1..] == a[1..] + b;
      FilterAppend(a[1..], b, p);
    } else {
      assert a + b == b;
    }
  }

  /** A single element is kept exactly when it satisfies `p`. */
  lemma {:induction false} FilterSingle<T>(x: T, p: T -> bool)
    ensures Filter([x], p) == if p(x) then [x] else []
  {
    assert [x][1..] == [];
  }

  /** Filtering a sequence given by its head and tail. */
  lemma {:induction false} FilterCons<T>(x: T, t: seq<T>, p: T -> bool)
    ensures Filter([x] + t, p) == (if p(x) then [x] else []) + Filter(t, p)
  {
    assert ([x] + t)[1..] == t;
  }

  /** An element is kept exactly when it occurs and satisfies `p`. */
  lemma {:induction false} FilterMembers<T>(s: seq<T>, p: T -> bool, x: T)
    ensures x in Filter(s, p) <==> x in s && p(x)
  {
    if |s| > 0 {
      FilterMembers(s[1..], p, x);
      assert s == [s[0]] + s[1..];
    }
  }

  /** When every element satisfies `p`, nothing is removed. */
  lemma {:induction false} FilterAll<T>(s: seq<T>, p: T -> bool)
    requires forall i :: 0 <= i < |s| ==> p(s[i])
    ensures Filter(s, p) == s
  {
    if |s| > 0 {
      FilterAll(s[1..], p);
    }
  }

  /** No element occurs twice. */
  predicate NoDuplicates<T(==)>(s: seq<T>) {
    forall i, j :: 0 <= i < j < |s| ==> s[i] != s[j]
  }

  /** Index of the first occurrence of `x` in `s`. */
  function FirstIndex<T(==)>(s: seq<T>, x: T): (i: nat)
    requires x in s
    ensures i < |s| && s[i] == x && x !in s[..i]
  {
    if s[0] == x then 0 else 1 + FirstIndex(s[1..], x)
  }

  /** The distinct elements of `s` in order of first appearance, the order in
      which a JavaScript `Map` or `Set` enumerates keys inserted from `s`. */
  function Distinct<T(==,!new)>(s: seq<T>): (r: seq<T>)
    ensures NoDuplicates(r)
    ensures forall x :: x in r <==> x in s
    ensures |r| <= |s|
  {
    if |s| == 0 then []
    else
      var d := Distinct(s[..|s| - 1]);
      assert forall x :: x in s <==> x in s[..|s| - 1] || x == s[|s| - 1] by {
        assert s == s[..|s| - 1] + [s[|s| - 1]];
      }
      if s[|s| - 1] in d then d else d + [s[|s| - 1]]
  }

  /** `Distinct` lists elements in the order of their first occurrence. */
  lemma {:induction false} DistinctFirstSeenOrder<T(!new)>(s: seq<T>, i: nat, j: nat)
    requires i < j < |Distinct(s)|
    ensures FirstIndex(s, Distinct(s)[i]) < FirstIndex(s, Distinct(s)[j])
  {
    var p := s[..|s| - 1];
    var last := s[|s| - 1];
    assert s == p + [last];
    var d := Distinct(p);
    var x, y := Distinct(s)[i], Distinct(s)[j];
    if last in d || j < |d| {
      assert Distinct(s)[..|d|] == d;
      assert x == d[i] && y == d[j];
      DistinctFirstSeenOrder(p, i, j);
      FirstIndexPrefix(p, last, x);
      FirstIndexPrefix(p, last, y);
    } else {
      assert y == last && last !in p;
      assert x == d[i] && x in p;
      FirstIndexPrefix(p, last, x);
      FirstIndexLast(p, last);
    }
  }

  lemma {:induction false} FirstIndexPrefix<T>(p: seq<T>, last: T, x: T)
    requires x in p
    ensures x in p + [last] && FirstIndex(p + [last], x) == FirstIndex(p, x)
  {
    var k := FirstIndex(p, x);
    var s := p + [last];
    assert s[..k] == p[..k];
    assert s[k] == x;
  }

  lemma {:induction false} FirstIndexLast<T>(p: seq<T>, last: T)
    requires last !in p
    ensures last in p + [last] && FirstIndex(p + [last], last) == |p|
  {
    var s := p + [last];
    assert s[..|p|] == p;
  }

  /** A duplicate-free sequence has as many elements as its set. */
  lemma {:induction false} NoDuplicatesCardinality<T>(s: seq<T>)
    requires NoDuplicates(s)
    ensures |set x | x in s| == |s|
  {
    if |s| > 0 {
      var p := s[..|s| - 1];
      var last := s[|s| - 1];
      assert s == p + [last];
      assert NoDuplicates(p);
      NoDuplicatesCardinality(p);
      assert last !in p;
      assert (set x | x in s) == (set x | x in p) + {last};
    }
  }

  /** Sum of a sequence of reals, left to right. */
  function SumReals(s: seq<real>): real {
    if |s| == 0 then 0.0 else SumReals(s[..|s| - 1]) + s[|s| - 1]
  }

  lemma {:induction false} SumRealsAppend(a: seq<real>, b: seq<real>)
    ensures SumReals(a + b) == SumReals(a) + SumReals(b)
    decreases |b|
  {
    if |b| > 0 {
      assert (a + b)[..|a + b| - 1] == a + b[..|b| - 1];
      SumRealsAppend(a, b[..|b| - 1]);
    } else {
      assert a + b == a;
    }
  }

  /** Pointwise sum of two sequences of the same length. */
  function AddReals(a: seq<real>, b: seq<real>): (r: seq<real>)
    requires |a| == |b|
    ensures |r| == |a|
  {
    seq(|a|, i requires 0 <= i < |a| => a[i] + b[i])
  }

  /** Summing distributes over pointwise addition. */
  lemma {:induction false} SumRealsAdd(a: seq<real>, b: seq<real>)
    requires |a| == |b|
    ensures SumReals(AddReals(a, b)) == SumReals(a) + SumReals(b)
  {
    if |a| > 0 {
      var n := |a| - 1;
      SumRealsAdd(a[..n], b[..n]);
      assert AddReals(a, b)[..n] == AddReals(a[..n], b[..n]);
    }
  }

  /** A sequence of zeros sums to zero. */
  lemma {:induction false} SumZeros(s: seq<real>)
    requires forall i :: 0 <= i < |s| ==> s[i] == 0.0
    ensures SumReals(s) == 0.0
  {
    if |s| > 0 {
      var n := |s| - 1;
      assert forall i :: 0 <= i < n ==> s[..n][i] == s[i];
      SumZeros(s[..n]);
    }
  }

  /** A sequence that is zero outside position `j` sums to its `j`th
      element. */
  lemma {:induction false} SumSingle(s: seq<real>, j: nat)
    requires j < |s|
    requires forall i :: 0 <= i < |s| && i != j ==> s[i] == 0.0
    ensures SumReals(s) == s[j]
  {
    var n := |s| - 1;
    if j == n {
      assert forall i :: 0 <= i < n ==> s[..n][i] == s[i];
      SumZeros(s[..n]);
    } else {
      assert forall i :: 0 <= i < n ==> s[..n][i] == s[i];
      SumSingle(s[..n], j);
    }
  }

  /** The sums of the rows of a matrix. */
  function RowSums(m: seq<seq<real>>): (r: seq<real>)
    ensures |r| == |m|
  {
    seq(|m|, i requires 0 <= i < |m| => SumReals(m[i]))
  }

  /** Column `j` of a matrix whose rows are at least `j + 1` long. */
  function Column(m: seq<seq<real>>, j: nat): (r: seq<real>)
    requires forall i :: 0 <= i < |m| ==> j < |m[i]|
    ensures |r| == |m|
  {
    seq(|m|, i requires 0 <= i < |m| => m[i][j])
  }

  /** The sums of the first `width` columns of a matrix. */
  function ColumnSums(m: seq<seq<real>>, width: nat): (r: seq<real>)
    requires forall i :: 0 <= i < |m| ==> |m[i]| == width
    ensures |r| == width
  {
    seq(width, j requires 0 <= j < width => SumReals(Column(m, j)))
  }

  /** A rectangular matrix sums to the same total by rows and by columns. */
  lemma {:induction false} SumByRowsOrColumns(m: seq<seq<real>>, width: nat)
    requires forall i :: 0 <= i < |m| ==> |m[i]| == width
    ensures SumReals(RowSums(m)) == SumReals(ColumnSums(m, width))
  {
    if |m| == 0 {
      SumZeros(ColumnSums(m, width));
    } else {
      var n := |m| - 1;
      var p := m[..n];
      SumByRowsOrColumns(p, width);
      assert RowSums(m)[..n] == RowSums(p);
      var before := ColumnSums(p, width);
      SumRealsAdd(before, m[n]);
      forall j | 0 <= j < width
        ensures ColumnSums(m, width)[j] == AddReals(before, m[n])[j]
      {
        assert Column(m, j)[..n] == Column(p, j);
      }
      assert ColumnSums(m, width) == AddReals(before, m[n]);
    }
  }
}
