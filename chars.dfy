/** The character classes that the path patterns of PathHelpers are built from. */
module Chars {

  /** `[a-zA-Z]`: an ASCII letter; the patterns are case-sensitive ordinal ranges. */
  predicate IsAsciiLetter(c: char) {
    'a' <= c <= 'z' || 'A' <= c <= 'Z'
  }

  /** `[0-9]`: an ASCII decimal digit. */
  predicate IsAsciiDigit(c: char) {
    '0' <= c <= '9'
  }

  /** `[^\\/:*?"<>|\r\n]`: a character allowed inside a path component. */
  predicate IsPathChar(c: char) {
    c != '\\' && c != '/' && c != ':' && c != '*' && c != '?' && c != '"'
    && c != '<' && c != '>' && c != '|' && c != '\r' && c != '\n'
  }

  predicate AllPathChars(s: string) {
    forall i :: 0 <= i < |s| ==> IsPathChar(s[i])
  }

  predicate AllDigits(s: string) {
    forall i :: 0 <= i < |s| ==> IsAsciiDigit(s[i])
  }

  predicate NoBackslash(s: string) {
    forall i :: 0 <= i < |s| ==> s[i] != '\\'
  }
}
