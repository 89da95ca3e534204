/**
 * The two pieces of string handling the server relies on:
 * JavaScript's `String.prototype.trim` (strip leading and trailing white
 * space and line terminators) and SQLite's NOCASE collation, which folds
 * only the 26 ASCII upper-case letters.
 */
module Text {

  /** The characters `trim` removes: ECMAScript WhiteSpace and LineTerminator. */
  predicate IsJsSpace(c: char)
  {
    || c == '\t' || c == '\n' || c == '\U{000B}' || c == '\U{000C}' || c == '\r'
    || c == ' ' || c == '\U{00A0}' || c == '\U{1680}'
    || ('\U{2000}' <= c <= '\U{200A}')
    || c == '\U{2028}' || c == '\U{2029}' || c == '\U{202F}' || c == '\U{205F}'
    || c == '\U{3000}' || c == '\U{FEFF}'
  }

  predicate AllSpace(s: string)
  {
    forall i :: 0 <= i < |s| ==> IsJsSpace(s[i])
  }

  /** How many white-space characters `s` starts with. */
  function Lead(s: string): (n: nat)
    ensures n <= |s|
    ensures forall i :: 0 <= i < n ==> IsJsSpace(s[i])
    ensures n < |s| ==> !IsJsSpace(s[n])
  {
    if |s| > 0 && IsJsSpace(s[0]) then
      var n := 1 + Lead(s[1..]);
      assert forall i :: 1 <= i < n ==> s[1..][i - 1] == s[i];
      n
    else 0
  }

  /** Where the trailing white space of `s` begins, looking no further left than `lo`. */
  function TrailFrom(s: string, lo: nat): (n: nat)
    requires lo <= |s|
    ensures lo <= n <= |s|
    ensures forall i :: n <= i < |s| ==> IsJsSpace(s[i])
    ensures n > lo ==> !IsJsSpace(s[n - 1])
  {
    if |s| > lo && IsJsSpace(s[|s| - 1]) then
      var n := TrailFrom(s[..|s| - 1], lo);
      assert forall i :: n <= i < |s| - 1 ==> s[..|s| - 1][i] == s[i];
      n
    else |s|
  }

  /**
   * JavaScript `s.trim()`. The result is the stretch of `s` left between
   * the white space at its two ends; it is empty exactly when `s` is all
   * white space, which is when the server's `!s.trim()` test rejects a field.
   */
  function Trim(s: string): (r: string)
    ensures Lead(s) + |r| <= |s| && r == s[Lead(s)..Lead(s) + |r|]
    ensures forall i :: 0 <= i < |s| && (i < Lead(s) || Lead(s) + |r| <= i) ==> IsJsSpace(s[i])
    ensures |r| == 0 || (!IsJsSpace(r[0]) && !IsJsSpace(r[|r| - 1]))
    ensures |r| == 0 <==> AllSpace(s)
  {
    var lo := Lead(s);
    s[lo..TrailFrom(s, lo)]
  }

  /** A string with no white space at either end is its own trim. */
  lemma TrimKeeps(s: string)
    requires |s| > 0 && !IsJsSpace(s[0]) && !IsJsSpace(s[|s| - 1])
    ensures Trim(s) == s
  {
    assert Lead(s) == 0;
  }

  /** Trimming twice is trimming once. */
  lemma TrimIdempotent(s: string)
    ensures Trim(Trim(s)) == Trim(s)
  {
  }

  /** SQLite NOCASE on one character: only 'A'..'Z' are folded. */
  function FoldChar(c: char): char
  {
    if 'A' <= c <= 'Z' then (c as int + 32) as char else c
  }

  /**
   * The NOCASE key of a text: same length, no ASCII upper-case letter
   * left, and every character either kept or replaced by the other case
   * of the same ASCII letter.
   */
  function Fold(s: string): (r: string)
    ensures |r| == |s|
    ensures forall i :: 0 <= i < |r| ==> !('A' <= r[i] <= 'Z')
    ensures forall i :: 0 <= i < |s| ==> r[i] == s[i] || SameAsciiLetter(s[i], r[i])
  {
    seq(|s|, i requires 0 <= i < |s| => FoldChar(s[i]))
  }

  /** Folding a folded text changes nothing. */
  lemma FoldIdempotent(s: string)
    ensures Fold(Fold(s)) == Fold(s)
  {
    var f := Fold(s);
    forall i | 0 <= i < |f| ensures Fold(f)[i] == f[i] {
      assert !('A' <= f[i] <= 'Z');
    }
  }

  /** Equality under `COLLATE NOCASE`. */
  predicate NoCaseEq(a: string, b: string)
  {
    Fold(a) == Fold(b)
  }

  /**
   * Character-wise description of NOCASE equality: same length, and at
   * every position the characters are equal or are the two cases of one
   * ASCII letter.
   */
  lemma NoCaseEqPointwise(a: string, b: string)
    ensures NoCaseEq(a, b) <==>
      |a| == |b| && forall i :: 0 <= i < |a| ==> (a[i] == b[i] || SameAsciiLetter(a[i], b[i]))
  {
    if |a| == |b| && forall i :: 0 <= i < |a| ==> (a[i] == b[i] || SameAsciiLetter(a[i], b[i])) {
      forall i | 0 <= i < |a| ensures Fold(a)[i] == Fold(b)[i] {
        assert a[i] == b[i] || SameAsciiLetter(a[i], b[i]);
      }
    }
    if NoCaseEq(a, b) {
      forall i | 0 <= i < |a| ensures a[i] == b[i] || SameAsciiLetter(a[i], b[i]) {
        assert Fold(a)[i] == Fold(b)[i];
      }
    }
  }

  predicate SameAsciiLetter(x: char, y: char)
  {
    ('A' <= x <= 'Z' && y as int == x as int + 32) || ('A' <= y <= 'Z' && x as int == y as int + 32)
  }

  /** NOCASE equality is an equivalence relation. */
  lemma NoCaseEqIsEquivalence(a: string, b: string, c: string)
    ensures NoCaseEq(a, a)
    ensures NoCaseEq(a, b) ==> NoCaseEq(b, a)
    ensures NoCaseEq(a, b) && NoCaseEq(b, c) ==> NoCaseEq(a, c)
  {
  }
}
