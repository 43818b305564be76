/** Character classes and prefix tests shared by the namepath code, written
    to match the JavaScript regular-expression classes the resolver uses. */
module Strings {

  datatype Option<T> = None | Some(value: T)

  /** A line terminator in the sense of ECMAScript: the characters the regex
      atom `.` does not match. */
  predicate IsLineTerminator(c: char) {
    c == '\n' || c == '\r' || c == '\U{2028}' || c == '\U{2029}'
  }

  /** The characters of the regex class `\s`: ECMAScript white space (tab,
      vertical tab, form feed, space, no-break space, byte order mark and the
      Unicode space separators) together with the line terminators. */
  predicate IsWhitespace(c: char) {
    || c == '\t' || c == '\U{B}' || c == '\U{C}' || c == ' '
    || c == '\U{A0}' || c == '\U{FEFF}' || c == '\U{1680}' || c == '\U{180E}'
    || ('\U{2000}' <= c <= '\U{200A}') || c == '\U{202F}' || c == '\U{205F}' || c == '\U{3000}'
    || IsLineTerminator(c)
  }

  /** `s.indexOf(p) === 0` */
  predicate StartsWith(s: string, p: string) {
    |p| <= |s| && s[..|p|] == p
  }

  /** A character of a plain JavaScript identifier (ASCII letters, digits, `_`, `$`). */
  predicate IsIdentChar(c: char) {
    ('a' <= c <= 'z') || ('A' <= c <= 'Z') || ('0' <= c <= '9') || c == '_' || c == '$'
  }

  predicate IsIdentifier(s: string) {
    forall k :: 0 <= k < |s| ==> IsIdentChar(s[k])
  }
}
