/**
 * The two string operations the blog relies on: Python's `str.strip()`,
 * which decides whether a title or a post body is blank (sm.py:214-215), and
 * SQLite's BINARY collation, which orders `created_at` in
 * `ORDER BY created_at DESC` (sm.py:50).
 */
module Text {

  /**
   * Python's `str.isspace()` on one character: the characters
   * `str.strip()` with no argument removes.
   */
  predicate IsSpace(c: char) {
    || ('\t' <= c <= '\r')
    || ('\U{1C}' <= c <= '\U{1F}')
    || c == ' '
    || c == '\U{85}'
    || c == '\U{A0}'
    || c == '\U{1680}'
    || ('\U{2000}' <= c <= '\U{200A}')
    || c == '\U{2028}'
    || c == '\U{2029}'
    || c == '\U{202F}'
    || c == '\U{205F}'
    || c == '\U{3000}'
  }

  /** `s.lstrip()`: drops the leading whitespace and nothing else. */
  function TrimStart(s: string): (r: string)
    ensures |r| <= |s| && r == s[|s| - |r|..]
    ensures forall i | 0 <= i < |s| - |r| :: IsSpace(s[i])
    ensures r != [] ==> !IsSpace(r[0])
  {
    if s != [] && IsSpace(s[0]) then TrimStart(s[1..]) else s
  }

  /** `s.rstrip()`: drops the trailing whitespace and nothing else. */
  function TrimEnd(s: string): (r: string)
    ensures |r| <= |s| && r == s[..|r|]
    ensures forall i | |r| <= i < |s| :: IsSpace(s[i])
    ensures r != [] ==> !IsSpace(r[|r| - 1])
  {
    if s != [] && IsSpace(s[|s| - 1]) then TrimEnd(s[..|s| - 1]) else s
  }

  /**
   * `s.strip()`: no whitespace is left at either end, and a string with
   * none there comes back unchanged.
   */
  function Strip(s: string): (r: string)
    ensures |r| <= |s|
    ensures r != [] ==> !IsSpace(r[0]) && !IsSpace(r[|r| - 1])
    ensures s != [] && !IsSpace(s[0]) && !IsSpace(s[|s| - 1]) ==> r == s
  {
    TrimEnd(TrimStart(s))
  }

  /**
   * `r` is `s` with only whitespace dropped: the first `a` characters and
   * everything after `r` are whitespace, and `r` sits in between.
   */
  predicate StrippedAt(s: string, r: string, a: int) {
    && 0 <= a <= |s| - |r|
    && r == s[a..a + |r|]
    && (forall i | 0 <= i < a :: IsSpace(s[i]))
    && (forall i | a + |r| <= i < |s| :: IsSpace(s[i]))
  }

  /** `s.strip()` is the middle of `s`, reached by dropping end whitespace only. */
  lemma StripKeepsMiddle(s: string)
    ensures exists a :: StrippedAt(s, Strip(s), a)
  {
    var t := TrimStart(s);
    var r := Strip(s);
    var a := |s| - |t|;
    forall i | a + |r| <= i < |s| ensures IsSpace(s[i]) {
      assert s[i] == t[i - a];
    }
    assert StrippedAt(s, r, a);
  }

  /** `not s.strip()`: the guard the Create Post form applies (sm.py:214-215). */
  predicate IsBlank(s: string)
    ensures IsBlank(s) <==> forall i | 0 <= i < |s| :: IsSpace(s[i])
  {
    BlankIffAllSpace(s);
    Strip(s) == []
  }

  /** A string strips to nothing exactly when every character is whitespace. */
  lemma BlankIffAllSpace(s: string)
    ensures Strip(s) == [] <==> forall i | 0 <= i < |s| :: IsSpace(s[i])
  {
    var t := TrimStart(s);
    var d := |s| - |t|;
    assert Strip(s) == TrimEnd(t);
    if forall i | 0 <= i < |s| :: IsSpace(s[i]) {
      if t != [] {
        assert false;
      }
    } else {
      var k :| 0 <= k < |s| && !IsSpace(s[k]);
      assert d <= k;
      assert t[k - d] == s[k];
      if TrimEnd(t) == [] {
        assert false;
      }
    }
  }

  /**
   * SQLite's BINARY collation on TEXT: a byte-wise comparison of the UTF-8
   * encodings, which orders strings lexicographically by code point, a
   * proper prefix first.
   */
  predicate TextLeq(a: string, b: string) {
    a == [] || (b != [] && (a[0] < b[0] || (a[0] == b[0] && TextLeq(a[1..], b[1..]))))
  }

  lemma {:induction false} TextLeqTotal(a: string, b: string)
    ensures TextLeq(a, b) || TextLeq(b, a)
  {
    if a != [] && b != [] && a[0] == b[0] {
      TextLeqTotal(a[1..], b[1..]);
    }
  }

  lemma {:induction false} TextLeqTransitive(a: string, b: string, c: string)
    requires TextLeq(a, b) && TextLeq(b, c)
    ensures TextLeq(a, c)
  {
    if a != [] && b != [] && c != [] && a[0] == b[0] && b[0] == c[0] {
      TextLeqTransitive(a[1..], b[1..], c[1..]);
    }
  }
}
