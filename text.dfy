/** An optional value: a request field that may be absent. */
module Wrappers {
  datatype Option<+T> = None | Some(value: T)
}

/**
 * The two string operations the classifiers rely on: Python's `str.lower()`
 * (restricted to ASCII, which is all the keyword lists use) and the
 * substring test `p in s`.
 */
module Text {

  predicate IsUpper(c: char) {
    'A' <= c <= 'Z'
  }

  /** ASCII lower-casing of one character; any other character is kept. */
  function Lower(c: char): (d: char)
    ensures !IsUpper(d)
    ensures IsUpper(c) || d == c
  {
    if IsUpper(c) then (c as int + 32) as char else c
  }

  /** `s.lower()` on ASCII text. */
  function LowerStr(s: string): (r: string)
    ensures |r| == |s|
    ensures forall i :: 0 <= i < |s| ==> r[i] == Lower(s[i])
  {
    seq(|s|, i requires 0 <= i < |s| => Lower(s[i]))
  }

  /** `p in s`: p occurs in s as a contiguous run of characters. */
  predicate Contains(s: string, p: string) {
    exists i :: 0 <= i <= |s| && p <= s[i..]
  }

  /** a and b differ at most in the ASCII case of their letters. */
  predicate SameUpToCase(a: string, b: string) {
    |a| == |b| && forall i :: 0 <= i < |a| ==> Lower(a[i]) == Lower(b[i])
  }

  /** Texts that differ only in letter case lower-case to the same text. */
  lemma SameUpToCaseLower(a: string, b: string)
    requires SameUpToCase(a, b)
    ensures LowerStr(a) == LowerStr(b)
  {
    assert forall i :: 0 <= i < |a| ==> LowerStr(a)[i] == LowerStr(b)[i];
  }

  /** Lower-casing keeps every occurrence: if p occurs in s, lower(p) occurs in lower(s). */
  lemma LowerKeepsOccurrence(s: string, p: string)
    requires Contains(s, p)
    ensures Contains(LowerStr(s), LowerStr(p))
  {
    var i :| 0 <= i <= |s| && p <= s[i..];
    var ls, lp := LowerStr(s), LowerStr(p);
    forall j | 0 <= j < |lp|
      ensures lp[j] == ls[i..][j]
    {
      assert p[j] == s[i..][j] == s[i + j];
    }
    assert lp <= ls[i..];
  }
}
