/** Character classes and anchored tests on editor text.
    The character classes are those of JavaScript regular expressions without
    the `u` flag: `\d`, `\w` and `\s`. */
module Text {

  /** `\d` */
  predicate IsDigit(c: char) {
    '0' <= c <= '9'
  }

  /** `\w`: ASCII letters, digits and the underscore */
  predicate IsWordChar(c: char) {
    'a' <= c <= 'z' || 'A' <= c <= 'Z' || IsDigit(c) || c == '_'
  }

  /** `\s`: the ECMAScript white space and line terminator characters */
  predicate IsSpace(c: char) {
    c == ' ' || c == '\t' || c == '\n' || c == '\r' || c == '\U{000B}' || c == '\U{000C}'
    || c == '\U{00A0}' || c == '\U{1680}' || ('\U{2000}' <= c <= '\U{200A}')
    || c == '\U{2028}' || c == '\U{2029}' || c == '\U{202F}' || c == '\U{205F}'
    || c == '\U{3000}' || c == '\U{FEFF}'
  }

  /** `s.startsWith(p)` */
  predicate StartsWith(s: string, p: string) {
    |p| <= |s| && forall k :: 0 <= k < |p| ==> s[k] == p[k]
  }

  /** `s.endsWith(p)` */
  predicate EndsWith(s: string, p: string) {
    |p| <= |s| && forall k :: 0 <= k < |p| ==> s[|s| - |p| + k] == p[k]
  }

  lemma EndsWithLast(s: string, p: string)
    requires EndsWith(s, p) && |p| > 0
    ensures s[|s| - 1] == p[|p| - 1]
  {
    assert s[|s| - |p| + (|p| - 1)] == p[|p| - 1];
  }

  /** A two-character suffix is decided by the last two characters. */
  lemma EndsWithPair(s: string, p: string)
    requires |p| == 2 && |s| >= 2
    ensures EndsWith(s, p) <==> s[|s| - 2] == p[0] && s[|s| - 1] == p[1]
  {
    assert s[|s| - |p| + 1] == s[|s| - 1];
  }

  /** `/\d$/` (and `/\d+$/`, which matches exactly the same strings) */
  predicate EndsWithDigit(s: string) {
    |s| > 0 && IsDigit(s[|s| - 1])
  }

  /** `/^\d+/` */
  predicate StartsWithDigit(s: string) {
    |s| > 0 && IsDigit(s[0])
  }

  /** `/[\w_]+$/` */
  predicate EndsWithWordChar(s: string) {
    |s| > 0 && IsWordChar(s[|s| - 1])
  }

  predicate AllWordChars(s: string) {
    forall i :: 0 <= i < |s| ==> IsWordChar(s[i])
  }

  /** The lines of a document joined by its end-of-line sequence, as the
      editor's whole-document text read gives them. */
  function Join(lines: seq<string>, eol: string): string {
    if |lines| == 0 then ""
    else if |lines| == 1 then lines[0]
    else lines[0] + eol + Join(lines[1..], eol)
  }
}
