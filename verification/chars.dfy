/** Character classes and case mapping used by the text list parser and by
    the casing transform. */
module Chars {

  /** JavaScript white space and line terminators: exactly the characters the
      regular-expression class `\s` matches and `String.prototype.trim`
      removes. */
  predicate IsWhite(c: char) {
    || c == '\t' || c == '\n' || c == '\U{000B}' || c == '\U{000C}' || c == '\r'
    || c == ' ' || c == '\U{00A0}' || c == '\U{1680}'
    || ('\U{2000}' <= c <= '\U{200A}')
    || c == '\U{2028}' || c == '\U{2029}' || c == '\U{202F}' || c == '\U{205F}'
    || c == '\U{3000}' || c == '\U{FEFF}'
  }

  /** The regular-expression class `\w` (no Unicode flag): `[A-Za-z0-9_]`. */
  predicate IsWord(c: char) {
    ('a' <= c <= 'z') || ('A' <= c <= 'Z') || ('0' <= c <= '9') || c == '_'
  }

  predicate IsLowerLetter(c: char) { 'a' <= c <= 'z' }

  predicate IsUpperLetter(c: char) { 'A' <= c <= 'Z' }

  /** `toUpperCase` on one character, restricted to ASCII letters. */
  function Upper(c: char): (u: char)
    ensures !IsLowerLetter(u)
    ensures IsLowerLetter(c) ==> IsUpperLetter(u) && u as int == c as int - 32
    ensures !IsLowerLetter(c) ==> u == c
  {
    if IsLowerLetter(c) then (c as int - 32) as char else c
  }

  /** `toLowerCase` on one character, restricted to ASCII letters. */
  function Lower(c: char): (l: char)
    ensures !IsUpperLetter(l)
    ensures IsUpperLetter(c) ==> IsLowerLetter(l) && l as int == c as int + 32
    ensures !IsUpperLetter(c) ==> l == c
  {
    if IsUpperLetter(c) then (c as int + 32) as char else c
  }

  /** Case mapping never moves a character in or out of `\s` or `\w`. */
  lemma CaseKeepsClasses(c: char)
    ensures IsWhite(Upper(c)) == IsWhite(c) && IsWhite(Lower(c)) == IsWhite(c)
    ensures IsWord(Upper(c)) == IsWord(c) && IsWord(Lower(c)) == IsWord(c)
  {
  }

  /** Mapping to one case forgets any earlier case mapping. */
  lemma CaseAbsorbs(c: char)
    ensures Upper(Upper(c)) == Upper(c) && Upper(Lower(c)) == Upper(c)
    ensures Lower(Lower(c)) == Lower(c) && Lower(Upper(c)) == Lower(c)
  {
  }
}
