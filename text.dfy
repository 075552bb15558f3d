/** The few string operations the two programs use: substring search
    (`in`, `str.split(sep, 1)`, `str.contains`), `str.lower`, `str.strip`
    and Python's ordering of strings. */
module Text {
  import opened Wrappers

  /** `w` occurs in `s` starting at index `i`. */
  predicate OccursAt(s: string, w: string, i: int)
  {
    0 <= i && i + |w| <= |s| && s[i..i + |w|] == w
  }

  /** The first index at or after `from` where `w` occurs in `s`. */
  function IndexFrom(s: string, w: string, from: nat): (r: Option<nat>)
    ensures r.Some? ==> from <= r.value && OccursAt(s, w, r.value)
    ensures r.Some? ==> forall j :: from <= j < r.value ==> !OccursAt(s, w, j)
    ensures r.None? ==> forall j :: from <= j ==> !OccursAt(s, w, j)
    decreases |s| - from
  {
    if from + |w| > |s| then None
    else if s[from..from + |w|] == w then Some(from)
    else IndexFrom(s, w, from + 1)
  }

  /** The first occurrence of `w` in `s`, as `str.find` gives it. */
  function IndexOf(s: string, w: string): (r: Option<nat>)
    ensures r.Some? ==> OccursAt(s, w, r.value) && forall j :: 0 <= j < r.value ==> !OccursAt(s, w, j)
    ensures r.None? <==> forall j :: !OccursAt(s, w, j)
  {
    IndexFrom(s, w, 0)
  }

  /** Python's `w in s`. */
  predicate Contains(s: string, w: string)
  {
    IndexOf(s, w).Some?
  }

  /** A single differing character rules an occurrence out. */
  lemma NotOccursAt(s: string, w: string, i: int, k: int)
    requires 0 <= k < |w|
    requires 0 <= i && i + |w| <= |s| ==> s[i + k] != w[k]
    ensures !OccursAt(s, w, i)
  {
    if 0 <= i && i + |w| <= |s| {
      assert s[i..i + |w|][k] == s[i + k];
    }
  }

  lemma ContainsIff(s: string, w: string)
    ensures Contains(s, w) <==> exists j :: OccursAt(s, w, j)
  {
  }

  /** `str.lower` on the ASCII letters. */
  function LowerChar(c: char): char
  {
    if 'A' <= c <= 'Z' then (c as int + 32) as char else c
  }

  function Lower(s: string): (r: string)
    ensures |r| == |s| && forall i :: 0 <= i < |s| ==> r[i] == LowerChar(s[i])
  {
    if s == [] then [] else [LowerChar(s[0])] + Lower(s[1..])
  }

  /** The six common ASCII white-space characters, which `str.strip`
      removes (it also removes \x1c to \x1f, which are not modelled). */
  predicate IsSpace(c: char)
  {
    c == ' ' || c == '\t' || c == '\n' || c == '\r' || c == '\U{000B}' || c == '\U{000C}'
  }

  predicate AllSpace(s: string)
  {
    forall i :: 0 <= i < |s| ==> IsSpace(s[i])
  }

  function TrimStart(s: string): (r: string)
    ensures exists a :: AllSpace(a) && s == a + r
    ensures r != [] ==> !IsSpace(r[0])
  {
    if s != [] && IsSpace(s[0]) then
      var r := TrimStart(s[1..]);
      var a :| AllSpace(a) && s[1..] == a + r;
      assert AllSpace([s[0]] + a) && s == ([s[0]] + a) + r;
      r
    else
      assert AllSpace([]) && s == [] + s;
      s
  }

  function TrimEnd(s: string): (r: string)
    ensures exists b :: AllSpace(b) && s == r + b
    ensures r != [] ==> !IsSpace(r[|r| - 1])
  {
    if s != [] && IsSpace(s[|s| - 1]) then
      var r := TrimEnd(s[..|s| - 1]);
      var b :| AllSpace(b) && s[..|s| - 1] == r + b;
      assert AllSpace(b + [s[|s| - 1]]) && s == r + (b + [s[|s| - 1]]);
      r
    else
      assert AllSpace([]) && s == s + [];
      s
  }

  /** `str.strip()`: `s` is `r` padded on both sides by white space, and `r`
      neither starts nor ends with white space. */
  function Strip(s: string): (r: string)
    ensures exists a, b :: AllSpace(a) && AllSpace(b) && s == a + r + b
    ensures r != [] ==> !IsSpace(r[0]) && !IsSpace(r[|r| - 1])
  {
    var t := TrimStart(s);
    var r := TrimEnd(t);
    var a :| AllSpace(a) && s == a + t;
    var b :| AllSpace(b) && t == r + b;
    assert s == a + r + b;
    assert r != [] ==> r[0] == t[0];
    r
  }

  /** An occurrence in the middle part of `a + r + b` is one in the whole. */
  lemma OccursInPadded(a: string, r: string, b: string, w: string, j: int)
    requires OccursAt(r, w, j)
    ensures OccursAt(a + r + b, w, |a| + j)
  {
    var s := a + r + b;
    assert s[|a| + j..|a| + j + |w|] == r[j..j + |w|];
  }

  /** An occurrence of a word without white space in `a + r + b`, where `a`
      and `b` are white space, lies within `r`. */
  lemma OccursInCore(a: string, r: string, b: string, w: string, j: int)
    requires AllSpace(a) && AllSpace(b)
    requires w != [] && forall i :: 0 <= i < |w| ==> !IsSpace(w[i])
    requires OccursAt(a + r + b, w, j)
    ensures OccursAt(r, w, j - |a|)
  {
    var s := a + r + b;
    assert s[j] == s[j..j + |w|][0] == w[0];
    assert forall i :: 0 <= i < |a| ==> s[i] == a[i];
    assert j >= |a|;
    var e := j + |w| - 1;
    assert s[e] == s[j..j + |w|][|w| - 1] == w[|w| - 1];
    assert forall i :: |a| + |r| <= i < |s| ==> s[i] == b[i - |a| - |r|];
    assert e < |a| + |r|;
    assert r[j - |a|..j - |a| + |w|] == s[j..j + |w|];
  }

  /** Stripping white space cannot create or destroy an occurrence of a word
      that has no white space in it. */
  lemma StripKeepsWords(s: string, w: string)
    requires w != [] && forall i :: 0 <= i < |w| ==> !IsSpace(w[i])
    ensures Contains(Strip(s), w) <==> Contains(s, w)
  {
    var r := Strip(s);
    var a, b :| AllSpace(a) && AllSpace(b) && s == a + r + b;
    if Contains(r, w) {
      OccursInPadded(a, r, b, w, IndexOf(r, w).value);
    }
    if Contains(s, w) {
      OccursInCore(a, r, b, w, IndexOf(s, w).value);
    }
  }

  /** Python's `<` on strings: code-point order, a proper prefix first. */
  predicate LexLess(a: string, b: string)
  {
    if a == [] then b != []
    else b != [] && (a[0] < b[0] || (a[0] == b[0] && LexLess(a[1..], b[1..])))
  }

  lemma {:induction false} LexLessIrreflexive(a: string)
    ensures !LexLess(a, a)
  {
    if a != [] {
      LexLessIrreflexive(a[1..]);
    }
  }

  lemma {:induction false} LexLessTransitive(a: string, b: string, c: string)
    requires LexLess(a, b) && LexLess(b, c)
    ensures LexLess(a, c)
  {
    if a != [] && a[0] == b[0] && b[0] == c[0] {
      LexLessTransitive(a[1..], b[1..], c[1..]);
    }
  }

  lemma {:induction false} LexLessTotal(a: string, b: string)
    requires a != b
    ensures LexLess(a, b) || LexLess(b, a)
  {
    if a != [] && b != [] && a[0] == b[0] {
      assert a == [a[0]] + a[1..] && b == [b[0]] + b[1..];
      LexLessTotal(a[1..], b[1..]);
    }
  }
}
