/**
 Character classes and small string functions shared by the email and URL
 predicates. Strings are sequences of Unicode scalar values; the JavaScript
 regular expressions of the suite run without the `u` flag, over UTF-16 code
 units, which makes no difference for the classes used here (none of them
 contains a surrogate).
 */
module Strings {

  /** The ECMAScript `\s` class: the WhiteSpace and LineTerminator code points
      (TAB, LF, VT, FF, CR, SPACE, NBSP, OGHAM SPACE MARK, U+2000..U+200A,
      LS, PS, NNBSP, MMSP, IDEOGRAPHIC SPACE and the BOM). */
  predicate IsWhitespace(c: char) {
    var n := c as int;
    || (0x09 <= n <= 0x0D)
    || n == 0x20
    || n == 0xA0
    || n == 0x1680
    || (0x2000 <= n <= 0x200A)
    || n == 0x2028
    || n == 0x2029
    || n == 0x202F
    || n == 0x205F
    || n == 0x3000
    || n == 0xFEFF
  }

  predicate NoWhitespace(s: string) {
    forall i :: 0 <= i < |s| ==> !IsWhitespace(s[i])
  }

  predicate IsAsciiLetterOrDigit(c: char) {
    ('a' <= c <= 'z') || ('A' <= c <= 'Z') || ('0' <= c <= '9')
  }

  /** Number of occurrences of `c` in `s`. */
  function Count(s: string, c: char): (n: nat)
    ensures n <= |s|
    ensures n == 0 <==> c !in s
  {
    if |s| == 0 then 0
    else (if s[0] == c then 1 else 0) + Count(s[1..], c)
  }

  /** Index of the first occurrence of `c` in `s`, or `|s|` when there is none. */
  function Find(s: string, c: char): (i: nat)
    ensures i <= |s|
    ensures i < |s| <==> c in s
    ensures i < |s| ==> s[i] == c
    ensures forall j :: 0 <= j < i ==> s[j] != c
  {
    if |s| == 0 then 0
    else if s[0] == c then 0
    else 1 + Find(s[1..], c)
  }

  predicate StartsWith(s: string, prefix: string) {
    |prefix| <= |s| && s[..|prefix|] == prefix
  }

  /** `pattern` occurs in `s` starting at index `i`. */
  predicate OccursAt(s: string, pattern: string, i: int) {
    0 <= i && i + |pattern| <= |s| && s[i..i + |pattern|] == pattern
  }

  /** `pattern` is a substring of `s`. */
  predicate Occurs(s: string, pattern: string) {
    exists i | 0 <= i <= |s| :: OccursAt(s, pattern, i)
  }
}
