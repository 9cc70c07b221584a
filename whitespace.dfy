/** The character class `\s` of ECMAScript regular expressions, which the
    reader uses (as `/\S/.test(text)`) to drop records holding only
    whitespace. */
module Whitespace {

  /** True of the ECMAScript WhiteSpace and LineTerminator code points:
      tab, line feed, vertical tab, form feed, carriage return, space,
      no-break space, the byte order mark, the other space separators
      (category Zs) and the two Unicode line and paragraph separators.
      No visible ASCII character is one of them. */
  predicate IsWhiteSpace(c: char)
    ensures '!' <= c <= '~' ==> !IsWhiteSpace(c)
  {
    || c == '\t' || c == '\n' || c == '\U{000B}' || c == '\U{000C}' || c == '\r'
    || c == ' ' || c == '\U{00A0}' || c == '\U{1680}'
    || ('\U{2000}' <= c <= '\U{200A}')
    || c == '\U{2028}' || c == '\U{2029}' || c == '\U{202F}' || c == '\U{205F}'
    || c == '\U{3000}' || c == '\U{FEFF}'
  }

  /** `/\S/.test(text)`: the text has a character outside `\s`. */
  predicate HasNonWhiteSpace(text: string)
    ensures HasNonWhiteSpace(text) <==> exists i :: 0 <= i < |text| && !IsWhiteSpace(text[i])
  {
    text != [] && (!IsWhiteSpace(text[0]) || HasNonWhiteSpace(text[1..]))
  }
}
