/** JavaScript's `s.split(sep)` for a non-empty separator, the only string
    operation the glossary code calls; `IndexOf` is the separator search
    inside `split`, and `Join` its inverse, used to state what `split`
    returns. */
module JsString {

  /** True when `sep` occurs in `s` starting at index `i`. */
  predicate OccursAt(s: string, sep: string, i: int) {
    0 <= i && i + |sep| <= |s| && s[i..i + |sep|] == sep
  }

  /** True when `sep` occurs nowhere in `s`. */
  predicate Free(s: string, sep: string) {
    forall i | 0 <= i <= |s| :: !OccursAt(s, sep, i)
  }

  /** Concatenation is associative. */
  lemma AppendAssoc<T>(a: seq<T>, b: seq<T>, c: seq<T>)
    ensures a + (b + c) == a + b + c
  {
  }

  /** `s.indexOf(sep, from)`: the least index at or after `from` where `sep`
      occurs, or -1 when there is none. */
  function IndexOf(s: string, sep: string, from: nat): (r: int)
    requires |sep| > 0
    ensures r == -1 || (from <= r && OccursAt(s, sep, r))
    ensures forall j :: from <= j && (r == -1 || j < r) ==> !OccursAt(s, sep, j)
    decreases |s| - from
  {
    if from + |sep| > |s| then -1
    else if s[from..from + |sep|] == sep then from
    else IndexOf(s, sep, from + 1)
  }

  /** `pieces.join(sep)`. */
  function Join(pieces: seq<string>, sep: string): string {
    if |pieces| == 0 then ""
    else if |pieces| == 1 then pieces[0]
    else pieces[0] + sep + Join(pieces[1..], sep)
  }

  /** `s.split(sep)`: cuts `s` at every non-overlapping occurrence of `sep`,
      scanning left to right. `"".split(sep)` is `[""]` and a trailing
      separator yields a trailing `""`. */
  function Split(s: string, sep: string): (r: seq<string>)
    requires |sep| > 0
    ensures |r| >= 1
    ensures forall k :: 0 <= k < |r| ==> Free(r[k], sep)
    ensures Join(r, sep) == s
    decreases |s|
  {
    var i := IndexOf(s, sep, 0);
    if i < 0 then
      [s]
    else
      var head, tail := s[..i], s[i + |sep|..];
      FreePrefix(s, sep, i);
      var rest := Split(tail, sep);
      assert ([head] + rest)[1..] == rest;
      assert s == head + sep + tail by {
        assert s[i..i + |sep|] == sep;
        assert s == s[..i] + s[i..i + |sep|] + s[i + |sep|..];
      }
      [head] + rest
  }

  /** A prefix that ends before the first occurrence of `sep` is free of it. */
  lemma FreePrefix(s: string, sep: string, i: nat)
    requires |sep| > 0 && i <= |s|
    requires forall j :: 0 <= j < i ==> !OccursAt(s, sep, j)
    ensures Free(s[..i], sep)
  {
    forall j | 0 <= j <= i ensures OccursAt(s[..i], sep, j) ==> OccursAt(s, sep, j) && j < i {
      if j + |sep| <= i {
        assert s[..i][j..j + |sep|] == s[j..j + |sep|];
      }
    }
  }

  /** A slice of a string free of `p` is free of `p`. */
  lemma FreeSlice(s: string, p: string, a: nat, b: nat)
    requires a <= b <= |s|
    requires Free(s, p)
    ensures Free(s[a..b], p)
  {
    forall j | 0 <= j <= b - a ensures OccursAt(s[a..b], p, j) ==> OccursAt(s, p, a + j) {
      if j + |p| <= b - a {
        var x, y := s[a..b][j..j + |p|], s[a + j..a + j + |p|];
        assert forall k :: 0 <= k < |p| ==> x[k] == y[k];
        assert x == y;
      }
    }
  }

  /** A string that lacks the first character of `sep` is free of `sep`. */
  lemma FreeOfFirstChar(s: string, sep: string)
    requires |sep| > 0 && sep[0] !in s
    ensures Free(s, sep)
  {
    forall j | 0 <= j <= |s| ensures OccursAt(s, sep, j) ==> s[j] == sep[0] {
      if j + |sep| <= |s| {
        assert s[j..j + |sep|][0] == s[j];
      }
    }
  }

  /** Splitting a string that does not contain the separator gives the
      string itself. */
  lemma {:induction false} SplitFree(s: string, sep: string)
    requires |sep| > 0 && Free(s, sep)
    ensures Split(s, sep) == [s]
  {
    assert IndexOf(s, sep, 0) == -1;
  }

  /** `(a + sep + b).split(sep)` is `[a]` followed by `b.split(sep)` when `a`
      does not contain `sep` and `sep` is two distinct characters (so no
      occurrence can straddle the end of `a`). */
  lemma {:induction false} SplitAt(a: string, sep: string, b: string)
    requires |sep| == 2 && sep[0] != sep[1]
    requires Free(a, sep)
    ensures Split(a + sep + b, sep) == [a] + Split(b, sep)
  {
    var s := a + sep + b;
    forall j | 0 <= j < |a| ensures !OccursAt(s, sep, j) {
      if j + 2 <= |a| {
        assert s[j..j + 2] == a[j..j + 2];
        assert !OccursAt(a, sep, j);
      } else {
        assert s[j..j + 2][1] == s[j + 1] == sep[0];
      }
    }
    assert s[|a|..|a| + 2] == sep;
    assert OccursAt(s, sep, |a|);
    var i := IndexOf(s, sep, 0);
    assert i == |a|;
    assert s[..i] == a;
    assert s[i + |sep|..] == b;
  }

  /** Every piece of `s.split(sep)` is free of any `p` that `s` is free of. */
  lemma {:induction false} SplitPiecesFree(s: string, sep: string, p: string)
    requires |sep| > 0 && Free(s, p)
    ensures forall k :: 0 <= k < |Split(s, sep)| ==> Free(Split(s, sep)[k], p)
    decreases |s|
  {
    var i := IndexOf(s, sep, 0);
    if i >= 0 {
      FreeSlice(s, p, 0, i);
      FreeSlice(s, p, i + |sep|, |s|);
      assert s[i + |sep|..|s|] == s[i + |sep|..];
      SplitPiecesFree(s[i + |sep|..], sep, p);
      assert Split(s, sep) == [s[..i]] + Split(s[i + |sep|..], sep);
    }
  }

  /** A string made of two-character separator-free parts around another
      two-character string `q` is free of `p` when no character of `q`
      can start or finish an occurrence of `p`. */
  lemma FreeAround(t: string, q: string, v: string, p: string)
    requires |q| == 2 && |p| == 2
    requires p[0] != q[0] && p[0] != q[1] && p[1] != q[0]
    requires Free(t, p) && Free(v, p)
    ensures Free(t + q + v, p)
  {
    var s := t + q + v;
    forall j | 0 <= j <= |s| ensures !OccursAt(s, p, j) {
      if j + 2 <= |s| {
        assert s[j..j + 2][0] == s[j] && s[j..j + 2][1] == s[j + 1];
        if j + 2 <= |t| {
          assert s[j..j + 2] == t[j..j + 2];
          assert !OccursAt(t, p, j);
        } else if j >= |t| + 2 {
          assert s[j..j + 2] == v[j - |t| - 2..j - |t|];
          assert !OccursAt(v, p, j - |t| - 2);
        } else if j == |t| - 1 {
          assert s[j + 1] == q[0];
        } else if j == |t| {
          assert s[j] == q[0];
        } else {
          assert s[j] == q[1];
        }
      }
    }
  }
}
