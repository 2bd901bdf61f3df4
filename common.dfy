/** Shared vocabulary: an optional value and the C-locale character classes
    (<cctype>) that the tokenizer and the string helpers test characters with. */
module Common {

  datatype Option<+T> = None | Some(value: T)

  /** `isspace` in the "C" locale: blank, tab, newline, vertical tab, form feed, carriage return. */
  predicate IsSpace(c: char) {
    c == ' ' || ('\t' <= c <= '\r')
  }

  /** `isdigit`. */
  predicate IsDigit(c: char) {
    '0' <= c <= '9'
  }

  /** `isalpha` in the "C" locale. */
  predicate IsAlpha(c: char) {
    ('a' <= c <= 'z') || ('A' <= c <= 'Z')
  }

  /** `isalnum` in the "C" locale. */
  predicate IsAlnum(c: char) {
    IsAlpha(c) || IsDigit(c)
  }

  predicate IsLower(c: char) {
    'a' <= c <= 'z'
  }

  /** `toupper` in the "C" locale: only the 26 lower-case ASCII letters change. */
  function UpperChar(c: char): (u: char)
    ensures IsLower(c) ==> u as int == c as int - 32
    ensures !IsLower(c) ==> u == c
    ensures !IsLower(u)
    ensures IsAlpha(u) == IsAlpha(c) && IsDigit(u) == IsDigit(c) && IsSpace(u) == IsSpace(c)
  {
    if IsLower(c) then (c as int - 32) as char else c
  }

  /** The digit value of a decimal digit character. */
  function DigitValue(c: char): (d: nat)
    requires IsDigit(c)
    ensures d < 10
  {
    c as int - '0' as int
  }
}
