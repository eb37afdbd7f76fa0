/** Character classes of CPython's `str` type, and the Unicode-database operations the model
    takes as parameters. */
module Chars {

  /** `str.isspace()`, which is also what the regular expression class `\s` matches in a
      `str` pattern: the characters of bidirectional class WS, B or S, or category Zs. */
  predicate IsSpace(c: char)
  {
    var n := c as int;
    (0x09 <= n <= 0x0D) || (0x1C <= n <= 0x20) || n == 0x85 || n == 0xA0 || n == 0x1680
    || (0x2000 <= n <= 0x200A) || n == 0x2028 || n == 0x2029 || n == 0x202F || n == 0x205F
    || n == 0x3000
  }

  /** The six ASCII whitespace characters of the C library's `isspace`. */
  predicate IsAsciiSpace(c: char)
  {
    c == ' ' || ('\t' <= c <= '\r')
  }

  predicate IsAscii(c: char)
  {
    c as int < 0x80
  }

  predicate IsAsciiString(s: string)
  {
    forall i :: 0 <= i < |s| ==> IsAscii(s[i])
  }

  predicate IsAsciiLetterOrDigit(c: char)
  {
    ('a' <= c <= 'z') || ('A' <= c <= 'Z') || ('0' <= c <= '9')
  }

  /** `str.upper()` restricted to ASCII input, where it changes only `a`-`z`. */
  function AsciiUpper(c: char): (u: char)
    ensures IsAscii(c) ==> IsAscii(u)
    ensures !('a' <= u <= 'z')
  {
    if 'a' <= c <= 'z' then (c as int - 32) as char else c
  }

  /** The operations that depend on the Unicode character database, which the model does not
      contain: NFKC normalisation (Unicode UAX #15), `str.lower()`, `str.upper()` and
      `str.isprintable()`. */
  datatype UnicodeTables = UnicodeTables(
    nfkc: string -> string,
    lower: string -> string,
    upper: string -> string,
    printable: char -> bool)
}
