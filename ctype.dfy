/** The character classes of <ctype.h> in the "C" locale, which is the
    locale a program runs in until it calls setlocale. */
module CType {

  /** isspace: space, and \t \n \v \f \r (codes 9 to 13). */
  predicate IsSpace(c: char) {
    c == ' ' || ('\t' <= c <= '\r')
  }

  /** isdigit */
  predicate IsDigit(c: char) {
    '0' <= c <= '9'
  }

  /** ispunct: the printable ASCII characters that are neither letters,
      digits nor space. */
  predicate IsPunct(c: char) {
    ('!' <= c <= '/') || (':' <= c <= '@') || ('[' <= c <= '`') || ('{' <= c <= '~')
  }

  predicate IsLower(c: char) {
    'a' <= c <= 'z'
  }

  predicate IsUpper(c: char) {
    'A' <= c <= 'Z'
  }

  predicate AllDigits(s: string) {
    forall i :: 0 <= i < |s| ==> IsDigit(s[i])
  }

  predicate NoSpace(s: string) {
    forall i :: 0 <= i < |s| ==> !IsSpace(s[i])
  }
}
