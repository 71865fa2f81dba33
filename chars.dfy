/**
 * Character-level primitives behind Python's `str.lower()`, `str.split()` and `str.strip()`.
 * Lowercasing is modelled per character; the general proofs of the other modules rely only on
 * its idempotence and on its leaving the space unchanged, both proved at the end of this module.
 */
module Chars {

  /** Python's `str.isspace()` table: the characters `split()` and `strip()` treat as whitespace. */
  predicate IsSpace(c: char)
  {
    || ('\t' <= c <= '\r')                       // tab, line feed, vertical tab, form feed, carriage return
    || ('\U{1C}' <= c <= '\U{1F}')                 // file, group, record and unit separators
    || c == ' ' || c == '\U{85}' || c == '\U{A0}'
    || c == '\U{1680}'
    || ('\U{2000}' <= c <= '\U{200A}')
    || c == '\U{2028}' || c == '\U{2029}' || c == '\U{202F}' || c == '\U{205F}'
    || c == '\U{3000}'
  }

  /** Per-character lowercasing: ASCII capitals, Latin-1 capitals (not U+00D7), and Turkish Ğ and Ş. */
  function Lower(c: char): char
  {
    if 'A' <= c <= 'Z' || ('\U{C0}' <= c <= '\U{DE}' && c != '\U{D7}') then
      (c as int + 0x20) as char
    else if c == '\U{11E}' || c == '\U{15E}' then
      (c as int + 1) as char
    else
      c
  }

  /** Lowercasing twice is lowercasing once. */
  lemma LowerIdempotent(c: char)
    ensures Lower(Lower(c)) == Lower(c)
  {
  }

  /** Lowercasing leaves the space that `' '.join` inserts unchanged. */
  lemma LowerKeepsSpace()
    ensures Lower(' ') == ' '
  {
  }

}
