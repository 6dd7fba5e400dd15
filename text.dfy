/**
 * Character classes and literal matching used by the regular expressions of
 * the merger, the extractor and the mock parser. Strings are `seq<char>`,
 * and a `char` is a Unicode scalar value: a JavaScript string is a sequence
 * of UTF-16 code units, so one astral character is one `char` here but two
 * units there, and a lone surrogate has no counterpart.
 */
module Text {

  /** ECMAScript `\s`: WhiteSpace and LineTerminator code points. */
  predicate IsSpace(c: char) {
    c == '\t' || c == '\n' || c == '\U{B}' || c == '\U{C}' || c == '\r' || c == ' '
    || c == '\U{A0}' || c == '\U{1680}' || ('\U{2000}' <= c <= '\U{200A}')
    || c == '\U{2028}' || c == '\U{2029}' || c == '\U{202F}' || c == '\U{205F}'
    || c == '\U{3000}' || c == '\U{FEFF}'
  }

  /** ECMAScript LineTerminator: the characters that `.` does not match. */
  predicate IsLineTerminator(c: char) {
    c == '\n' || c == '\r' || c == '\U{2028}' || c == '\U{2029}'
  }

  /** ECMAScript `\w`: `[A-Za-z0-9_]`. */
  predicate IsWordChar(c: char) {
    ('a' <= c <= 'z') || ('A' <= c <= 'Z') || ('0' <= c <= '9') || c == '_'
  }

  /** ECMAScript `\b` at position `k` of `s` (between `s[k-1]` and `s[k]`). */
  predicate WordBoundary(s: string, k: nat)
    requires k <= |s|
  {
    (k > 0 && IsWordChar(s[k - 1])) != (k < |s| && IsWordChar(s[k]))
  }

  /** Case folding of the `i` regex flag. Without the `u` flag a character
      outside ASCII never folds onto an ASCII one, so for the ASCII patterns
      used here folding only the letters A-Z is exact. */
  function Fold(c: char): (r: char)
    ensures 'A' <= c <= 'Z' ==> 'a' <= r <= 'z'
    ensures !('A' <= c <= 'Z') ==> r == c
  {
    if 'A' <= c <= 'Z' then (c as int + 32) as char else c
  }

  /** `lit` occurs in `s` at position `i`. */
  predicate StartsAt(s: string, i: nat, lit: string) {
    i + |lit| <= |s| && s[i..i + |lit|] == lit
  }

  /** `a` and `b` are equal up to ASCII case. */
  predicate FoldedEq(a: string, b: string) {
    |a| == |b| && forall k :: 0 <= k < |a| ==> Fold(a[k]) == Fold(b[k])
  }

  /** `lit` occurs in `s` at position `i`, ignoring ASCII case. */
  predicate StartsAtFolded(s: string, i: nat, lit: string) {
    i + |lit| <= |s| && FoldedEq(s[i..i + |lit|], lit)
  }

  /** No character of `s[lo..hi]` is `c`. */
  predicate Avoids(s: string, lo: nat, hi: nat, c: char)
    requires lo <= hi <= |s|
  {
    forall k :: lo <= k < hi ==> s[k] != c
  }

  /** No character of `s[lo..hi]` is a line terminator. */
  predicate OnOneLine(s: string, lo: nat, hi: nat)
    requires lo <= hi <= |s|
  {
    forall k :: lo <= k < hi ==> !IsLineTerminator(s[k])
  }

  /** Inserting `t` at position `p` changes nothing before `p` and shifts
      everything from `p` on by `|t|`. */
  lemma InsertShape(s: string, p: nat, t: string)
    requires p <= |s|
    ensures var u := s[..p] + t + s[p..];
      && |u| == |s| + |t|
      && (forall k :: 0 <= k < p ==> u[k] == s[k])
      && (forall k :: 0 <= k < |t| ==> u[p + k] == t[k])
      && (forall k :: p <= k < |s| ==> u[k + |t|] == s[k])
  {
  }

  /** `lit` occurs at `i` when it agrees there character by character. */
  lemma StartsAtChars(s: string, i: nat, lit: string)
    requires i + |lit| <= |s|
    requires forall k :: 0 <= k < |lit| ==> s[i + k] == lit[k]
    ensures StartsAt(s, i, lit)
  {
    assert s[i..i + |lit|] == lit;
  }

  /** Joining two strings without line terminators gives one. */
  lemma OnOneLineAppend(a: string, b: string)
    requires OnOneLine(a, 0, |a|) && OnOneLine(b, 0, |b|)
    ensures OnOneLine(a + b, 0, |a + b|)
  {
    forall k | 0 <= k < |a + b| ensures !IsLineTerminator((a + b)[k]) {
      if k >= |a| {
        assert (a + b)[k] == b[k - |a|];
      }
    }
  }

  /** Two windows agreeing character by character are equal. */
  lemma Window(a: string, i: nat, b: string, j: nat, m: nat)
    requires i + m <= |a| && j + m <= |b|
    requires forall k :: i <= k < i + m ==> a[k] == b[k - i + j]
    ensures a[i..i + m] == b[j..j + m]
  {
  }
}
