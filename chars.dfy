/**
  Character classes used by the response post-processing of the analysis
  page: the digits matched by the regular-expression class `\d`, and the
  characters that JavaScript's `String.prototype.trim` removes.
 */
module Chars {

  /** `\d` in a JavaScript regular expression: the ASCII digits only. */
  predicate IsDigit(c: char) {
    '0' <= c <= '9'
  }

  /** The numeric value of an ASCII digit. */
  function DigitValue(c: char): (v: nat)
    requires IsDigit(c)
    ensures v < 10
  {
    c as int - '0' as int
  }

  /** The ASCII digit whose value is `v`. */
  function DigitChar(v: nat): (c: char)
    requires v < 10
    ensures IsDigit(c) && DigitValue(c) == v
  {
    ('0' as int + v) as char
  }

  /**
    The characters `trim` strips: ECMAScript's WhiteSpace (tab, vertical tab,
    form feed, the zero-width no-break space U+FEFF, which is listed on its
    own, and the Unicode "Zs" space separators, among them space and no-break
    space) and LineTerminator (line feed, carriage return, line separator,
    paragraph separator).
   */
  predicate IsWs(c: char) {
    || c == ' ' || c == '\t' || c == '\n' || c == '\r'
    || c == '\U{000B}' || c == '\U{000C}'
    || c == '\U{00A0}' || c == '\U{1680}'
    || ('\U{2000}' <= c <= '\U{200A}')
    || c == '\U{2028}' || c == '\U{2029}'
    || c == '\U{202F}' || c == '\U{205F}' || c == '\U{3000}'
    || c == '\U{FEFF}'
  }
}
