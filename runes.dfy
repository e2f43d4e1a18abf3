/**
 * Runes: Unicode code points as Dafny `char`s. A byte sequence that does not
 * decode is represented by the replacement rune U+FFFD, as Go's range loop
 * yields it.
 *
 * Go's Unicode category tables are not part of this model. They are carried by
 * a `Tables` value whose predicates are fixed on ASCII (where the Go tables are
 * small and known) and left open above it.
 */
module Runes {

  /** unicode.MaxASCII */
  const MaxASCII: int := 0x7F

  /** utf8.RuneError, the rune an undecodable byte decodes to. */
  const RuneError: char := '\U{FFFD}'

  predicate IsAscii(r: char) {
    r as int <= MaxASCII
  }

  predicate IsAsciiUpper(r: char) {
    'A' <= r <= 'Z'
  }

  /** The ASCII runes of Unicode category P (unicode.IsPunct). */
  predicate IsAsciiPunct(r: char) {
    ('!' <= r <= '#') || ('%' <= r <= '*') || (',' <= r <= '/') || r == ':' || r == ';' ||
    r == '?' || r == '@' || ('[' <= r <= ']') || r == '_' || r == '{' || r == '}'
  }

  /** The ASCII runes of Unicode category S (unicode.IsSymbol). */
  predicate IsAsciiSymbol(r: char) {
    r == '$' || r == '+' || ('<' <= r <= '>') || r == '^' || r == '`' || r == '|' || r == '~'
  }

  /** The ASCII runes unicode.IsSpace accepts. */
  predicate IsAsciiSpace(r: char) {
    ('\t' <= r <= '\r') || r == ' '
  }

  /** unicode.ToLower restricted to ASCII. */
  function AsciiToLower(r: char): char {
    if IsAsciiUpper(r) then (r as int + 32) as char else r
  }

  /** The Unicode tables the rules consult. */
  datatype Tables = Tables(
    isUpper: char -> bool,        // unicode.IsUpper
    isPunct: char -> bool,        // unicode.IsPunct
    isSymbol: char -> bool,       // unicode.IsSymbol
    isOtherSymbol: char -> bool,  // unicode.Is(unicode.So, r)
    isSpace: char -> bool,        // unicode.IsSpace, as strings.TrimSpace uses it
    toLower: char -> char)        // unicode.ToLower, as strings.ToLower maps it

  /** The tables agree with Unicode on every ASCII rune; no ASCII rune is So. */
  ghost predicate Valid(u: Tables) {
    && (forall r :: IsAscii(r) ==> (u.isUpper(r) <==> IsAsciiUpper(r)))
    && (forall r :: IsAscii(r) ==> (u.isPunct(r) <==> IsAsciiPunct(r)))
    && (forall r :: IsAscii(r) ==> (u.isSymbol(r) <==> IsAsciiSymbol(r)))
    && (forall r :: IsAscii(r) ==> !u.isOtherSymbol(r))
    && (forall r :: IsAscii(r) ==> (u.isSpace(r) <==> IsAsciiSpace(r)))
    && (forall r :: IsAscii(r) ==> u.toLower(r) == AsciiToLower(r))
  }

  /** A rune above ASCII lowers to an ASCII rune only when that is a letter
      (U+212A KELVIN SIGN lowers to `k`, U+0130 to `i`). */
  ghost predicate LowersToLetters(u: Tables) {
    forall r :: !IsAscii(r) && IsAscii(u.toLower(r)) ==> 'a' <= u.toLower(r) <= 'z'
  }

  /** Tables that know only ASCII: evidence that `Valid` can be met. */
  function AsciiTables(): (u: Tables)
    ensures Valid(u) && LowersToLetters(u)
  {
    Tables(IsAsciiUpper, IsAsciiPunct, IsAsciiSymbol, _ => false, IsAsciiSpace, AsciiToLower)
  }
}
