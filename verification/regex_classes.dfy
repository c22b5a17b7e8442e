/** The character classes of JavaScript regular expressions (without the `u`
    or `i` flags) that the build script's patterns use, as predicates on
    Dafny characters, which are Unicode scalar values. */
module RegexClasses {

  /** A line terminator: `\n`, `\r`, U+2028 or U+2029. */
  predicate LineTerminator(c: char) {
    c == '\n' || c == '\r' || c == '\U{2028}' || c == '\U{2029}'
  }

  /** `.`: any character but a line terminator. */
  predicate RegexDot(c: char) {
    !LineTerminator(c)
  }

  /** `\w`: `[A-Za-z0-9_]`. */
  predicate IsWordChar(c: char) {
    ('a' <= c <= 'z') || ('A' <= c <= 'Z') || ('0' <= c <= '9') || c == '_'
  }

  /** `[a-z0-9]`. */
  predicate IsLowerAlnum(c: char) {
    ('a' <= c <= 'z') || ('0' <= c <= '9')
  }
}
