/**
 * The character classes that the normaliser relies on: Python's `str.lower`,
 * the regular-expression classes `\w`, `\d`, `\s`, and the whitespace that
 * `str.strip()` removes. Only their ASCII part is modelled; `\s` and `strip()`
 * share one whitespace predicate, as they do in CPython.
 */
module Chars {

  predicate IsUpper(c: char) { 'A' <= c <= 'Z' }

  predicate IsLower(c: char) { 'a' <= c <= 'z' }

  /** `\d` */
  predicate IsDigit(c: char) { '0' <= c <= '9' }

  /** `\w`: letters, digits and the underscore. */
  predicate IsWord(c: char) { IsLower(c) || IsUpper(c) || IsDigit(c) || c == '_' }

  /** `\s` and `str.isspace`: tab, line feed, vertical tab, form feed, carriage
      return, the four separators U+001C..U+001F, and space. */
  predicate IsSpace(c: char) { c == ' ' || '\t' <= c <= '\r' || '\U{1C}' <= c <= '\U{1F}' }

  /** `str.lower` on one character. */
  function ToLower(c: char): (d: char)
    ensures !IsUpper(d)
    ensures IsUpper(c) ==> IsLower(d) && d as int - c as int == 'a' as int - 'A' as int
    ensures !IsUpper(c) ==> d == c
  {
    if IsUpper(c) then (c as int + ('a' as int - 'A' as int)) as char else c
  }

  lemma ToLowerKeepsClasses(c: char)
    ensures IsSpace(ToLower(c)) <==> IsSpace(c)
    ensures IsWord(ToLower(c)) <==> IsWord(c)
    ensures IsDigit(ToLower(c)) <==> IsDigit(c)
  {
  }
}
