/**
 * The JavaScript built-ins the task list controller relies on, stated as
 * functions: `undefined`, `String.prototype.trim`, `Array.prototype.filter`
 * and `Array.prototype.find`.
 */
module Js {

  /** A value that may be `undefined` (or `null`). */
  datatype Option<+T> = None | Some(value: T)

  // ---------------------------------------------------------------------------
  // String.prototype.trim
  // ---------------------------------------------------------------------------

  /**
   * The code points `trim` strips: ECMAScript's WhiteSpace (TAB, VT, FF, SP,
   * NBSP, ZWNBSP and every "Zs" space separator) and LineTerminator
   * (LF, CR, LS, PS).
   */
  predicate IsWhitespace(c: char) {
    || c == '\U{0009}' || c == '\U{000A}' || c == '\U{000B}' || c == '\U{000C}'
    || c == '\U{000D}' || c == '\U{0020}' || c == '\U{00A0}' || c == '\U{1680}'
    || ('\U{2000}' <= c <= '\U{200A}')
    || c == '\U{2028}' || c == '\U{2029}' || c == '\U{202F}' || c == '\U{205F}'
    || c == '\U{3000}' || c == '\U{FEFF}'
  }

  predicate AllWhitespace(s: string) {
    forall k :: 0 <= k < |s| ==> IsWhitespace(s[k])
  }

  /** `s` with its leading whitespace removed. */
  function TrimStart(s: string): (r: string)
    ensures |r| <= |s|
  {
    if s != [] && IsWhitespace(s[0]) then TrimStart(s[1..]) else s
  }

  /** `s` with its trailing whitespace removed. */
  function TrimEnd(s: string): (r: string)
    ensures |r| <= |s|
  {
    if s != [] && IsWhitespace(s[|s| - 1]) then TrimEnd(s[..|s| - 1]) else s
  }

  /** `s.trim()`. */
  function Trim(s: string): (r: string)
    ensures |r| <= |s|
  {
    TrimEnd(TrimStart(s))
  }

  /** `TrimStart` keeps a suffix, cuts only whitespace, and stops at the first other character. */
  lemma {:induction false} TrimStartCut(s: string)
    ensures TrimStart(s) == s[|s| - |TrimStart(s)|..]
    ensures AllWhitespace(s[..|s| - |TrimStart(s)|])
    ensures TrimStart(s) == [] || !IsWhitespace(TrimStart(s)[0])
  {
    if s != [] && IsWhitespace(s[0]) {
      TrimStartCut(s[1..]);
      var cut := |s| - |TrimStart(s)|;
      assert forall j :: 1 <= j < cut ==> s[..cut][j] == s[1..][..cut - 1][j - 1];
    }
  }

  /** `TrimEnd` keeps a prefix, cuts only whitespace, and stops at the last other character. */
  lemma {:induction false} TrimEndCut(s: string)
    ensures TrimEnd(s) == s[..|TrimEnd(s)|]
    ensures AllWhitespace(s[|TrimEnd(s)|..])
    ensures TrimEnd(s) == [] || !IsWhitespace(TrimEnd(s)[|TrimEnd(s)| - 1])
  {
    if s != [] && IsWhitespace(s[|s| - 1]) {
      var init := s[..|s| - 1];
      TrimEndCut(init);
      var n := |TrimEnd(s)|;
      assert forall j :: 0 <= j < |s| - 1 - n ==> s[n..][j] == init[n..][j];
    }
  }

  /** Neither end of `s.trim()` is whitespace. */
  lemma TrimEnds(s: string)
    ensures Trim(s) == [] || (!IsWhitespace(Trim(s)[0]) && !IsWhitespace(Trim(s)[|Trim(s)| - 1]))
  {
    var t := TrimStart(s);
    TrimStartCut(s);
    TrimEndCut(t);
    var r := TrimEnd(t);
    if r != [] {
      assert r[0] == t[0];
    }
  }

  /**
   * `s.trim()` is a contiguous slice of `s`, and what it cuts off on
   * either side is all whitespace.
   */
  lemma TrimSlice(s: string)
    ensures exists i ::
      && 0 <= i <= i + |Trim(s)| <= |s|
      && Trim(s) == s[i..i + |Trim(s)|]
      && AllWhitespace(s[..i])
      && AllWhitespace(s[i + |Trim(s)|..])
  {
    var t := TrimStart(s);
    TrimStartCut(s);
    TrimEndCut(t);
    var r := TrimEnd(t);
    var i := |s| - |t|;
    assert s[i + |r|..] == t[|r|..];
    assert r == s[i..i + |r|];
  }

  /** `s.trim() === ''` exactly when every character of `s` is whitespace. */
  lemma {:induction false} TrimBlank(s: string)
    ensures Trim(s) == [] <==> AllWhitespace(s)
  {
    var t := TrimStart(s);
    TrimStartCut(s);
    TrimEndCut(t);
    var cut := |s| - |t|;
    assert t == [] || t[0] == s[cut];
    assert forall j :: 0 <= j < cut ==> s[..cut][j] == s[j];
    assert forall j :: 0 <= j < |t| ==> t[j] == s[cut + j];
    var r := TrimEnd(t);
    assert r == [] ==> t[|r|..] == t;
  }

  /**
   * Trimming is exact: whitespace around a string that neither starts nor ends
   * with whitespace is exactly what `trim` removes.
   */
  lemma {:induction false} TrimExact(w1: string, s: string, w2: string)
    requires AllWhitespace(w1) && AllWhitespace(w2)
    requires s == [] || (!IsWhitespace(s[0]) && !IsWhitespace(s[|s| - 1]))
    requires s == [] ==> w2 == []
    ensures Trim(w1 + s + w2) == s
  {
    assert w1 + s + w2 == w1 + (s + w2);
    TrimStartExact(w1, s + w2);
    if s != [] {
      assert (s + w2)[0] == s[0];
      TrimEndExact(s, w2);
    } else {
      assert s + w2 == [];
    }
  }

  lemma {:induction false} TrimStartExact(w: string, s: string)
    requires AllWhitespace(w)
    requires s == [] || !IsWhitespace(s[0])
    ensures TrimStart(w + s) == s
  {
    if w != [] {
      assert (w + s)[1..] == w[1..] + s;
      assert (w + s)[0] == w[0];
      TrimStartExact(w[1..], s);
    } else {
      assert w + s == s;
    }
  }

  lemma {:induction false} TrimEndExact(s: string, w: string)
    requires AllWhitespace(w)
    requires s == [] || !IsWhitespace(s[|s| - 1])
    ensures TrimEnd(s + w) == s
  {
    if w != [] {
      var n := |w| - 1;
      assert (s + w)[..|s + w| - 1] == s + w[..n];
      assert (s + w)[|s + w| - 1] == w[n];
      TrimEndExact(s, w[..n]);
    } else {
      assert s + w == s;
    }
  }

  /** Trimming an already trimmed title changes nothing. */
  lemma TrimIdempotent(s: string)
    ensures Trim(Trim(s)) == Trim(s)
  {
    var r := Trim(s);
    TrimEnds(s);
    if r == [] {
      TrimExact([], [], []);
    } else {
      assert [] + r + [] == r;
      TrimExact([], r, []);
    }
  }

  // ---------------------------------------------------------------------------
  // Array.prototype.filter and Array.prototype.find
  // ---------------------------------------------------------------------------

  /** `s.filter(keep)`: the elements that satisfy `keep`, in their order. */
  function Filter<T>(s: seq<T>, keep: T -> bool): (r: seq<T>)
    ensures |r| <= |s|
    ensures forall k :: 0 <= k < |r| ==> keep(r[k])
    ensures (forall k :: 0 <= k < |s| ==> keep(s[k])) ==> r == s
  {
    if s == [] then []
    else
      var rest := Filter(s[1..], keep);
      assert s == [s[0]] + s[1..];
      if keep(s[0]) then [s[0]] + rest else rest
  }

  /**
   * Filtering keeps exactly the elements that satisfy `keep`, each as many
   * times as it occurs.
   */
  lemma {:induction false} FilterKeeps<T(!new)>(s: seq<T>, keep: T -> bool)
    ensures forall x :: x in Filter(s, keep) <==> x in s && keep(x)
    ensures forall x :: keep(x) ==> multiset(Filter(s, keep))[x] == multiset(s)[x]
  {
    if s != [] {
      FilterKeeps(s[1..], keep);
      assert s == [s[0]] + s[1..];
    }
  }

  /** Filtering distributes over concatenation: the kept elements keep their relative order. */
  lemma {:induction false} FilterConcat<T(!new)>(a: seq<T>, b: seq<T>, keep: T -> bool)
    ensures Filter(a + b, keep) == Filter(a, keep) + Filter(b, keep)
  {
    if a == [] {
      assert a + b == b;
    } else {
      assert (a + b)[0] == a[0];
      assert (a + b)[1..] == a[1..] + b;
      FilterConcat(a[1..], b, keep);
      if keep(a[0]) {
        assert [a[0]] + (Filter(a[1..], keep) + Filter(b, keep))
            == ([a[0]] + Filter(a[1..], keep)) + Filter(b, keep);
      }
    }
  }

  /** Filtering out the only rejected element closes the gap it leaves. */
  lemma {:induction false} FilterRemovesOnly<T(!new)>(s: seq<T>, keep: T -> bool, k: nat)
    requires k < |s| && !keep(s[k])
    requires forall j :: 0 <= j < |s| && j != k ==> keep(s[j])
    ensures Filter(s, keep) == s[..k] + s[k + 1..]
  {
    var tail := s[1..];
    assert forall j :: 0 <= j < |tail| ==> tail[j] == s[j + 1];
    if k == 0 {
      assert s[k + 1..] == tail;
    } else {
      FilterRemovesOnly(tail, keep, k - 1);
      assert s[..k] == [s[0]] + tail[..k - 1];
      assert s[k + 1..] == tail[k..];
    }
  }

  /** `s.find(p)`: the first element satisfying `p`, or `undefined`. */
  function Find<T>(s: seq<T>, p: T -> bool): (r: Option<T>)
    ensures r.None? <==> forall k :: 0 <= k < |s| ==> !p(s[k])
    ensures r.Some? ==>
      exists k :: 0 <= k < |s| && s[k] == r.value && p(s[k]) && forall j :: 0 <= j < k ==> !p(s[j])
  {
    if s == [] then None
    else if p(s[0]) then Some(s[0])
    else
      var r := Find(s[1..], p);
      assert forall k :: 1 <= k < |s| ==> s[k] == s[1..][k - 1];
      r
  }
}
