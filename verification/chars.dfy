/**
 Character classes used by the slug pipeline.

 Characters are Unicode scalar values. Case mapping is ASCII-only: the
 pipeline only keeps ASCII letters, so the full Unicode case tables of
 `toLowerCase`/`toUpperCase` are approximated by their ASCII part.
 */
module Chars {

  /** ECMAScript white space: the WhiteSpace and LineTerminator productions of
      ECMA-262, which both the regular-expression class `\s` and
      `String.prototype.trim` use. The space separators are the Unicode
      general category Zs. */
  predicate IsWs(c: char) {
    var n := c as int;
    n == 0x09 || n == 0x0A || n == 0x0B || n == 0x0C || n == 0x0D
    || n == 0x20 || n == 0xA0 || n == 0x1680
    || (0x2000 <= n <= 0x200A)
    || n == 0x2028 || n == 0x2029 || n == 0x202F || n == 0x205F
    || n == 0x3000 || n == 0xFEFF
  }

  /** What a white-space character is to the stages: kept by the filter of
      line 16, part of a separator run of line 20, and never a slug
      character, a hyphen, a letter to lowercase or a mark. */
  lemma WsClass(c: char)
    requires IsWs(c)
    ensures !IsSlugChar(c) && c != '-' && !IsAsciiUpper(c) && !IsCombiningMark(c)
    ensures IsAllowed(c) && IsSep(c)
  {
  }

  /** Tab, space, no-break space, line separator and byte-order mark are
      white space; hyphen, underscore and the ASCII letters and digits are not. */
  lemma WsMembers(c: char)
    ensures c in "\t \U{00A0}\U{2028}\U{FEFF}" ==> IsWs(c)
    ensures c == '-' || c == '_' || IsAsciiAlnum(c) ==> !IsWs(c)
  {
  }

  /** The Combining Diacritical Marks block, U+0300 to U+036F. */
  predicate IsCombiningMark(c: char) {
    0x300 <= c as int <= 0x36F
  }

  predicate IsAsciiUpper(c: char) {
    'A' <= c <= 'Z'
  }

  predicate IsAsciiLower(c: char) {
    'a' <= c <= 'z'
  }

  predicate IsAsciiDigit(c: char) {
    '0' <= c <= '9'
  }

  /** A character a kebab slug may hold besides its hyphens. */
  predicate IsSlugChar(c: char) {
    IsAsciiLower(c) || IsAsciiDigit(c)
  }

  /** A character the camel style may emit. */
  predicate IsAsciiAlnum(c: char) {
    IsAsciiLower(c) || IsAsciiUpper(c) || IsAsciiDigit(c)
  }

  /** What survives the filter of the lowercased text: `[a-z0-9\s-]`. */
  predicate IsAllowed(c: char) {
    IsSlugChar(c) || IsWs(c) || c == '-'
  }

  /** A character of a run that collapses to one hyphen: `[\s-]`. */
  predicate IsSep(c: char) {
    IsWs(c) || c == '-'
  }

  predicate NotSep(c: char) {
    !IsSep(c)
  }

  predicate NotCombiningMark(c: char) {
    !IsCombiningMark(c)
  }

  predicate NotHyphen(c: char) {
    c != '-'
  }

  /** ASCII part of `toLowerCase` on one character. */
  function ToLowerChar(c: char): (d: char)
    ensures !IsAsciiUpper(d)
    ensures IsAsciiUpper(c) ==> IsAsciiLower(d) && d as int == c as int + 32
    ensures !IsAsciiUpper(c) ==> d == c
  {
    if IsAsciiUpper(c) then (c as int + 32) as char else c
  }

  /** ASCII part of `toUpperCase` on one character. */
  function ToUpperChar(c: char): (d: char)
    ensures !IsAsciiLower(d)
    ensures IsAsciiLower(c) ==> IsAsciiUpper(d) && d as int == c as int - 32
    ensures !IsAsciiLower(c) ==> d == c
  {
    if IsAsciiLower(c) then (c as int - 32) as char else c
  }

  /** Upper-casing a character loses nothing that lower-casing would keep. */
  lemma LowerOfUpper(c: char)
    ensures ToLowerChar(ToUpperChar(c)) == ToLowerChar(c)
  {
  }
}
