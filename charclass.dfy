/** Character classes and the C-locale character functions the ByteArray
    classes rely on: isspace, tolower, toupper, and digit values as strtol
    reads them. A C++ `char` holds one byte; a Dafny `char` is wider, so
    `ByteOf` is the `unsigned char` cast that keeps the low eight bits. */
module CharClass {

  const FormFeed: char := '\U{000C}'
  const VerticalTab: char := '\U{000B}'

  /** The whitespace set " \t\n\r\f\v" used both by std::isspace in the C
      locale and by the trim functions. */
  predicate IsSpace(c: char) {
    c == ' ' || c == '\t' || c == '\n' || c == '\r' || c == FormFeed || c == VerticalTab
  }

  predicate IsUpper(c: char) { 'A' <= c <= 'Z' }

  predicate IsLower(c: char) { 'a' <= c <= 'z' }

  /** ::tolower in the C locale: only 'A'..'Z' change, each to the letter
      at the same place in 'a'..'z'. */
  function ToLowerChar(c: char): (r: char)
    ensures !IsUpper(r)
    ensures IsUpper(c) <==> r != c
    ensures IsUpper(c) ==> IsLower(r) && r as int - 'a' as int == c as int - 'A' as int
  {
    if IsUpper(c) then (c as int + 32) as char else c
  }

  /** ::toupper in the C locale: only 'a'..'z' change, each to the letter
      at the same place in 'A'..'Z'. */
  function ToUpperChar(c: char): (r: char)
    ensures !IsLower(r)
    ensures IsLower(c) <==> r != c
    ensures IsLower(c) ==> IsUpper(r) && r as int - 'A' as int == c as int - 'a' as int
  {
    if IsLower(c) then (c as int - 32) as char else c
  }

  /** The byte a C++ `char` holds, read as `unsigned char` (0..255). */
  function ByteOf(c: char): (b: nat)
    ensures b < 256
    ensures c as int < 256 ==> b == c as int
  {
    c as int % 256
  }

  /** The char that `static_cast<char>(v)` stores, for any int v. */
  function ByteChar(v: int): (c: char)
    ensures c as int < 256 && ByteOf(c) == v % 256
  {
    (v % 256) as char
  }

  /** The value strtol gives a digit character: '0'..'9' are 0..9 and
      letters of either case are 10..35; anything else is not a digit. */
  function DigitValue(c: char): (v: int)
    ensures -1 <= v < 36
  {
    if '0' <= c <= '9' then c as int - '0' as int
    else if 'a' <= c <= 'z' then c as int - 'a' as int + 10
    else if 'A' <= c <= 'Z' then c as int - 'A' as int + 10
    else -1
  }

  /** c is a digit in the given base, as strtol decides. */
  predicate IsDigitIn(c: char, base: nat) {
    0 <= DigitValue(c) < base
  }

  /** The lowercase digit an ostream writes for value v (hex uses a..f). */
  function DigitChar(v: nat): (c: char)
    requires v < 16
    ensures DigitValue(c) == v
    ensures !IsUpper(c) && !IsSpace(c) && c != '-' && c != '+'
    ensures IsLowerHexDigit(c)
  {
    if v < 10 then ('0' as int + v) as char else ('a' as int + v - 10) as char
  }

  /** The digits an ostream in hex mode writes. */
  predicate IsLowerHexDigit(c: char) {
    '0' <= c <= '9' || 'a' <= c <= 'f'
  }

  lemma DigitCharOfValue(c: char)
    requires IsLowerHexDigit(c)
    ensures 0 <= DigitValue(c) < 16 && DigitChar(DigitValue(c)) == c
  {
  }
}
