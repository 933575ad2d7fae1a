/** ASCII character classes, case mapping and the JavaScript integer
    arithmetic that the three cipher screens share. */
module Ascii {

  predicate IsUpper(c: char) { 'A' <= c <= 'Z' }

  predicate IsLower(c: char) { 'a' <= c <= 'z' }

  /** What the regular expression `/[a-z]/i` accepts for one character. */
  predicate IsLetter(c: char) { IsUpper(c) || IsLower(c) }

  predicate IsAsciiText(s: string) {
    forall i :: 0 <= i < |s| ==> s[i] as int < 128
  }

  /** `toUpperCase` on one ASCII character. */
  function Upper(c: char): (u: char)
    ensures IsLetter(c) ==> IsUpper(u)
    ensures !IsLetter(c) ==> u == c
    ensures IsUpper(c) ==> u == c
    ensures c as int < 128 ==> u as int < 128
  {
    if IsLower(c) then (c as int - 32) as char else c
  }

  /** `toLowerCase` on one ASCII character. */
  function Lower(c: char): (l: char)
    ensures IsLetter(c) ==> IsLower(l)
    ensures !IsLetter(c) ==> l == c
    ensures IsLower(c) ==> l == c
    ensures c as int < 128 ==> l as int < 128
  {
    if IsUpper(c) then (c as int + 32) as char else c
  }

  /** The letters are ASCII and of exactly one case, and they are exactly the
      characters that upper-case to a capital. */
  lemma LetterCases(c: char)
    ensures IsLetter(c) ==> c as int < 128 && IsUpper(c) != IsLower(c)
    ensures IsLetter(c) <==> IsUpper(Upper(c))
  {
  }

  /** JavaScript's `a % b` for b > 0: the remainder truncated toward zero,
      which takes the sign of the dividend (Dafny's `%` is Euclidean). */
  function TruncRem(a: int, b: int): (r: int)
    requires b > 0
    ensures -b < r < b
    ensures a >= 0 ==> 0 <= r
    ensures a <= 0 ==> r <= 0
  {
    if a >= 0 then a % b else -((-a) % b)
  }

  /** The truncated remainder by 26 is congruent to the dividend. */
  lemma TruncRemCongruent(a: int)
    ensures TruncRem(a, 26) % 26 == a % 26
  {
  }

  /** One step k (0 <= k < 26) forward in a 26-letter alphabet, wrapping
      past the end: for such operands this is `(x + k) % 26`. */
  function Wrap(x: int, k: int): (y: int)
    requires 0 <= x < 26 && 0 <= k < 26
    ensures 0 <= y < 26 && y == (x + k) % 26
  {
    if x + k < 26 then x + k else x + k - 26
  }

  /** Rotates an ASCII letter k places forward inside its own case's
      alphabet; every other character is returned unchanged. */
  function Rotate(c: char, k: int): (r: char)
    requires 0 <= k < 26
    ensures IsUpper(c) <==> IsUpper(r)
    ensures IsLower(c) <==> IsLower(r)
    ensures !IsLetter(c) ==> r == c
    ensures IsUpper(c) ==> r as int == (c as int - 65 + k) % 26 + 65
    ensures IsLower(c) ==> r as int == (c as int - 97 + k) % 26 + 97
  {
    if IsUpper(c) then (Wrap(c as int - 65, k) + 65) as char
    else if IsLower(c) then (Wrap(c as int - 97, k) + 97) as char
    else c
  }

  /** Rotating by a and then by b is rotating by (a + b) mod 26. */
  lemma RotateTwice(c: char, a: int, b: int)
    requires 0 <= a < 26 && 0 <= b < 26
    ensures Rotate(Rotate(c, a), b) == Rotate(c, Wrap(a, b))
  {
  }

  lemma RotateZero(c: char)
    ensures Rotate(c, 0) == c
  {
  }
}
