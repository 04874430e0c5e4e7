/**
 Character classes used by the hover-to-run script: the JavaScript
 whitespace and line-terminator sets (used by String.prototype.trim, the
 regular-expression escape `\s` and the multiline anchor `^`), the regular
 expression word characters (used by `\b`), and the `uriUnreserved` set of
 section 15.1.3 of ECMA-262 5.1 (used by encodeURIComponent).

 `char` is a Unicode scalar value, so no string here holds a lone surrogate.
 */
module Chars {

  /** LineTerminator of ECMA-262: LF, CR, LINE SEPARATOR, PARAGRAPH SEPARATOR. */
  predicate IsLineTerminator(c: char) {
    c == '\n' || c == '\r' || c as int == 0x2028 || c as int == 0x2029
  }

  /** WhiteSpace of ECMA-262 (TAB, VT, FF, SP, NBSP, BOM and the Unicode
      space separators), excluding the line terminators. */
  predicate IsBlank(c: char) {
    var n := c as int;
    n == 0x09 || n == 0x0B || n == 0x0C || n == 0x20 || n == 0xA0 ||
    n == 0xFEFF || n == 0x1680 || (0x2000 <= n <= 0x200A) ||
    n == 0x202F || n == 0x205F || n == 0x3000
  }

  /** What `trim` strips and what the pattern `\s` matches: WhiteSpace or LineTerminator. */
  predicate IsWhiteSpace(c: char) {
    IsBlank(c) || IsLineTerminator(c)
  }

  /** A regular-expression word character, `[A-Za-z0-9_]` (no `u` or `i` flag). */
  predicate IsWordChar(c: char) {
    ('A' <= c <= 'Z') || ('a' <= c <= 'z') || ('0' <= c <= '9') || c == '_'
  }

  /** The `uriMark` set of section 15.1.3 of ECMA-262 5.1. */
  predicate IsUriMark(c: char) {
    c == '-' || c == '_' || c == '.' || c == '!' || c == '~' ||
    c == '*' || c == '\'' || c == '(' || c == ')'
  }

  /** `uriUnreserved` = uriAlpha, DecimalDigit and uriMark: the characters
      encodeURIComponent leaves as they are. */
  predicate IsUriUnreserved(c: char) {
    ('A' <= c <= 'Z') || ('a' <= c <= 'z') || ('0' <= c <= '9') || IsUriMark(c)
  }

  /** The digits encodeURIComponent writes: upper-case hexadecimal. */
  predicate IsUpperHexDigit(c: char) {
    ('0' <= c <= '9') || ('A' <= c <= 'F')
  }

  /** The digits decodeURIComponent accepts: hexadecimal of either case. */
  predicate IsHexDigit(c: char) {
    ('0' <= c <= '9') || ('A' <= c <= 'F') || ('a' <= c <= 'f')
  }

  /** True iff every character of `s` is whitespace. */
  predicate AllWhiteSpace(s: string) {
    forall k | 0 <= k < |s| :: IsWhiteSpace(s[k])
  }

  /** True iff `s` holds no line terminator, i.e. is part of a single line. */
  predicate NoLineTerminator(s: string) {
    forall k | 0 <= k < |s| :: !IsLineTerminator(s[k])
  }

  /** True iff `s` begins with `p`. */
  predicate StartsWith(s: string, p: string) {
    |p| <= |s| && s[..|p|] == p
  }

  /** True iff `s` ends with `p`. */
  predicate EndsWith(s: string, p: string) {
    |p| <= |s| && s[|s| - |p|..] == p
  }

  /** Position `i` of `s` is where the multiline anchor `^` matches: the start
      of the input or just after a line terminator. */
  predicate LineStart(s: string, i: int) {
    0 <= i <= |s| && (i == 0 || IsLineTerminator(s[i - 1]))
  }

  lemma NoLineTerminatorConcat(a: string, b: string)
    requires NoLineTerminator(a) && NoLineTerminator(b)
    ensures NoLineTerminator(a + b)
  {
    forall k | 0 <= k < |a + b| ensures !IsLineTerminator((a + b)[k]) {
      if k >= |a| { assert (a + b)[k] == b[k - |a|]; }
    }
  }

  lemma AllWhiteSpaceConcat(a: string, b: string)
    requires AllWhiteSpace(a) && AllWhiteSpace(b)
    ensures AllWhiteSpace(a + b)
  {
    forall k | 0 <= k < |a + b| ensures IsWhiteSpace((a + b)[k]) {
      if k >= |a| { assert (a + b)[k] == b[k - |a|]; }
    }
  }
}
