/** The three encrypting ciphers of the main screen: Caesar, Vigenère and
    Rail Fence. */
module MainScreen {
  import opened Ascii
  import opened ZigZag

  // ----- Caesar -----

  /** The shift after `parseInt(shift) % 26` (a remainder truncated toward
      zero) and the fix-up that adds 26 to a negative remainder: it is the
      shift taken modulo 26. */
  function NormShift(shift: int): (k: int)
    ensures 0 <= k < 26
    ensures k == shift % 26
  {
    TruncRemCongruent(shift);
    var m := TruncRem(shift, 26);
    if m < 0 then m + 26 else m
  }

  /** Rotates every ASCII letter of s by the normalised shift, keeping its
      case; every other character is copied. */
  function CaesarCipher(s: string, shift: int): (r: string)
    ensures |r| == |s|
  {
    seq(|s|, i requires 0 <= i < |s| => Rotate(s[i], NormShift(shift)))
  }

  /** Position by position: a non-letter is copied, a letter keeps its case
      and moves shift places (modulo 26) along its alphabet, whatever the
      sign of the shift. */
  lemma CaesarShape(s: string, shift: int, i: nat)
    requires i < |s|
    ensures !IsLetter(s[i]) ==> CaesarCipher(s, shift)[i] == s[i]
    ensures IsUpper(CaesarCipher(s, shift)[i]) <==> IsUpper(s[i])
    ensures IsLower(CaesarCipher(s, shift)[i]) <==> IsLower(s[i])
    ensures IsUpper(s[i]) ==> CaesarCipher(s, shift)[i] as int - 65 == (s[i] as int - 65 + shift) % 26
    ensures IsLower(s[i]) ==> CaesarCipher(s, shift)[i] as int - 97 == (s[i] as int - 97 + shift) % 26
  {
    var c, k := s[i], NormShift(shift);
    if IsUpper(c) {
      ShiftMod(c as int - 65, shift);
    } else if IsLower(c) {
      ShiftMod(c as int - 97, shift);
    }
  }

  lemma ShiftMod(x: int, shift: int)
    ensures (x + NormShift(shift)) % 26 == (x + shift) % 26
  {
    var q := shift / 26;
    assert shift == 26 * q + NormShift(shift);
    ModShift(x + NormShift(shift), q);
  }

  lemma ModShift(y: int, q: int)
    ensures (y + 26 * q) % 26 == y % 26
  {
    ModUnique(y + 26 * q, 26, y / 26 + q, y % 26);
  }

  /** The normalised shifts add up modulo 26. */
  lemma NormShiftAdd(a: int, b: int)
    ensures NormShift(a + b) == Wrap(NormShift(a), NormShift(b))
  {
    var x, y := NormShift(a), NormShift(b);
    var qa, qb := a / 26, b / 26;
    assert a == qa * 26 + x && b == qb * 26 + y;
    if x + y < 26 {
      ModUnique(a + b, 26, qa + qb, x + y);
    } else {
      ModUnique(a + b, 26, qa + qb + 1, x + y - 26);
    }
  }

  /** Shifts that differ by 26 encrypt alike. */
  lemma CaesarPeriodic(s: string, k: int)
    ensures CaesarCipher(s, k) == CaesarCipher(s, k + 26)
  {
    ModShift(k, 1);
  }

  /** A shift by a multiple of 26 (0 included) changes nothing. */
  lemma CaesarIdentity(s: string, k: int)
    requires k % 26 == 0
    ensures CaesarCipher(s, k) == s
  {
    forall i | 0 <= i < |s|
      ensures CaesarCipher(s, k)[i] == s[i]
    {
      RotateZero(s[i]);
    }
  }

  /** Encrypting with a and then with b is encrypting with a + b. */
  lemma CaesarCompose(s: string, a: int, b: int)
    ensures CaesarCipher(CaesarCipher(s, a), b) == CaesarCipher(s, a + b)
  {
    var x, y := NormShift(a), NormShift(b);
    NormShiftAdd(a, b);
    forall i | 0 <= i < |s|
      ensures CaesarCipher(CaesarCipher(s, a), b)[i] == CaesarCipher(s, a + b)[i]
    {
      RotateTwice(s[i], x, y);
    }
  }

  /** Encrypting with -k undoes encrypting with k. */
  lemma CaesarUndo(s: string, k: int)
    ensures CaesarCipher(CaesarCipher(s, k), -k) == s
  {
    CaesarCompose(s, k, -k);
    CaesarIdentity(s, k + -k);
  }

  /** Encrypting with -k undoes encrypting with k, and the other way round. */
  lemma CaesarInverse(s: string, k: int)
    ensures CaesarCipher(CaesarCipher(s, k), -k) == s
    ensures CaesarCipher(CaesarCipher(s, -k), k) == s
  {
    CaesarUndo(s, k);
    CaesarUndo(s, -k);
  }

  // ----- Vigenère -----

  /** How many ASCII letters s holds. */
  function LetterCount(s: string): (n: nat)
    ensures n <= |s|
  {
    if s == [] then 0
    else LetterCount(s[..|s| - 1]) + (if IsLetter(s[|s| - 1]) then 1 else 0)
  }

  /** A text of letters only has as many letters as characters, and one
      without letters has none. */
  lemma {:induction false} LetterCountExtremes(s: string)
    ensures (forall i :: 0 <= i < |s| ==> IsLetter(s[i])) ==> LetterCount(s) == |s|
    ensures (forall i :: 0 <= i < |s| ==> !IsLetter(s[i])) ==> LetterCount(s) == 0
  {
    if s != [] {
      LetterCountExtremes(s[..|s| - 1]);
    }
  }

  /** `key.toUpperCase()` on an ASCII key. */
  function ToUpper(key: string): (u: string)
    ensures |u| == |key|
    ensures forall i :: 0 <= i < |key| ==> u[i] == Upper(key[i])
  {
    seq(|key|, i requires 0 <= i < |key| => Upper(key[i]))
  }

  /** The letter c enciphered with key code keyCode (the upper-cased key
      character minus 'A'): the sum of the two codes, remaindered toward
      zero, turned back into a capital and lower-cased when c was lower case.
      A key character that is not a letter makes keyCode fall outside
      0..25, which the code does not guard against: when the sum of the
      codes is negative the result is one of '(' to 'A' (or its lower-case
      form), mostly not a letter at all. */
  function VigenereLetter(c: char, keyCode: int): (e: char)
    requires IsLetter(c) && -65 <= keyCode < 63
    ensures Upper(c) as int - 65 + keyCode >= 0 ==> IsLetter(e) && (IsUpper(e) <==> IsUpper(c))
    ensures Upper(c) as int - 65 + keyCode < 0 ==> 40 <= Upper(e) as int <= 65
  {
    var code := TruncRem(Upper(c) as int - 65 + keyCode, 26);
    var ch := (code + 65) as char;
    if IsUpper(c) then ch else Lower(ch)
  }

  /** With a letter key character the Vigenère step is a Caesar rotation. */
  lemma VigenereLetterRotates(c: char, k: char)
    requires IsLetter(c) && IsLetter(k)
    ensures 0 <= Upper(k) as int - 65 < 26
    ensures VigenereLetter(c, Upper(k) as int - 65) == Rotate(c, Upper(k) as int - 65)
  {
  }

  /** The code of the key character the j-th letter of the text is enciphered
      with. */
  function KeyCode(key: string, j: nat): (code: int)
    requires IsAsciiText(key) && |key| > 0
    ensures -65 <= code < 63
  {
    Upper(key[j % |key|]) as int - 65
  }

  /** The Vigenère encryption of s: with an empty key s itself; otherwise the
      character at position i, when it is a letter and the j-th letter of s
      (counting letters only), is enciphered with key character j mod |key|,
      and every other character is copied. */
  function Vigenere(s: string, key: string): (r: string)
    requires IsAsciiText(key)
    ensures |r| == |s|
  {
    if key == [] then s
    else
      seq(|s|, i requires 0 <= i < |s| =>
        if IsLetter(s[i]) then VigenereLetter(s[i], KeyCode(key, LetterCount(s[..i]))) else s[i])
  }

  /** The loop of the main screen: a key index that moves on only at
      letters. */
  method VigenereCipher(s: string, key: string) returns (r: string)
    requires IsAsciiText(key)
    ensures r == Vigenere(s, key)
    ensures key == [] ==> r == s
  {
    if key == [] {
      return s;
    }
    var upperKey := ToUpper(key);
    r := [];
    var keyIndex := 0;
    var i := 0;
    while i < |s|
      invariant 0 <= i <= |s|
      invariant keyIndex == LetterCount(s[..i])
      invariant r == Vigenere(s, key)[..i]
    {
      var c := s[i];
      LetterCountNext(s, i);
      PrefixNext(Vigenere(s, key), i);
      if IsLetter(c) {
        var isUpperCase := c == Upper(c);
        var charCode := Upper(c) as int - 65;
        var keyChar := upperKey[keyIndex % |upperKey|];
        var keyCode := keyChar as int - 65;
        assert isUpperCase == IsUpper(c) && keyCode == KeyCode(key, keyIndex);
        var encryptedCode := TruncRem(charCode + keyCode, 26);
        var encryptedChar := (encryptedCode + 65) as char;
        if !isUpperCase {
          encryptedChar := Lower(encryptedChar);
        }
        assert encryptedChar == VigenereLetter(c, KeyCode(key, keyIndex));
        r := r + [encryptedChar];
        keyIndex := keyIndex + 1;
      } else {
        r := r + [c];
      }
      i := i + 1;
    }
  }

  lemma LetterCountNext(s: string, i: nat)
    requires i < |s|
    ensures LetterCount(s[..i + 1]) == LetterCount(s[..i]) + (if IsLetter(s[i]) then 1 else 0)
  {
    assert s[..i + 1][..i] == s[..i];
  }

  predicate IsLetterText(key: string) {
    forall i :: 0 <= i < |key| ==> IsLetter(key[i])
  }

  /** With a key of letters, the Vigenère encryption keeps every non-letter,
      keeps the case of every letter, and rotates the j-th letter of s by the
      j mod |key|-th key letter minus 'A'. */
  lemma VigenereShape(s: string, key: string, i: nat)
    requires IsLetterText(key) && |key| > 0 && i < |s|
    ensures IsAsciiText(key)
    ensures !IsLetter(s[i]) ==> Vigenere(s, key)[i] == s[i]
    ensures IsLetter(s[i]) ==> Vigenere(s, key)[i] == Rotate(s[i], Upper(key[LetterCount(s[..i]) % |key|]) as int - 65)
    ensures IsUpper(Vigenere(s, key)[i]) <==> IsUpper(s[i])
    ensures IsLower(Vigenere(s, key)[i]) <==> IsLower(s[i])
  {
    if IsLetter(s[i]) {
      VigenereLetterRotates(s[i], key[LetterCount(s[..i]) % |key|]);
    }
  }

  /** A one-letter key is a Caesar shift by that letter (upper-cased) minus 'A'. */
  lemma VigenereOneLetter(s: string, c: char)
    requires IsLetter(c)
    ensures Vigenere(s, [c]) == CaesarCipher(s, Upper(c) as int - 65)
  {
    forall i | 0 <= i < |s|
      ensures Vigenere(s, [c])[i] == CaesarCipher(s, Upper(c) as int - 65)[i]
    {
      VigenereOneLetterAt(s, c, i);
    }
  }

  lemma VigenereOneLetterAt(s: string, c: char, i: nat)
    requires IsLetter(c) && i < |s|
    ensures Vigenere(s, [c])[i] == CaesarCipher(s, Upper(c) as int - 65)[i]
  {
    var k := Upper(c) as int - 65;
    assert NormShift(k) == k;
    assert LetterCount(s[..i]) % 1 == 0;
    if IsLetter(s[i]) {
      VigenereLetterRotates(s[i], c);
    }
  }

  // ----- Rail Fence -----

  /** What the walk's direction is before column i: down (1) while the phase
      is inside the descent, up (-1) while it is inside the ascent; at the two
      turning rails the code overwrites it, so it is free there. */
  predicate Heading(i: nat, rails: int, direction: int)
    requires rails >= 2
  {
    (direction == 1 || direction == -1)
    && (0 < Phase(i, rails) < rails ==> direction == 1)
    && (Phase(i, rails) >= rails ==> direction == -1)
  }

  /** One step of the walk: after turning at rail 0 or rail rails-1, moving
      by the direction lands on the rail of the next column, and the new
      direction is again the heading. */
  lemma Bounce(i: nat, rails: int, direction: int, turned: int)
    requires rails >= 2 && Heading(i, rails, direction)
    requires turned == (if Row(i, rails) == 0 then 1 else if Row(i, rails) == rails - 1 then -1 else direction)
    ensures Row(i, rails) + turned == Row(i + 1, rails)
    ensures Heading(i + 1, rails, turned)
  {
    assert Phase(i + 1, rails) == if Phase(i, rails) + 1 == Period(rails) then 0 else Phase(i, rails) + 1;
  }

  /** The fence after the walk has visited the columns 0..i-1: each of those
      holds its character on its own rail, everything else is still blank. */
  predicate Drawn(fence: array2<string>, s: string, rails: int, i: nat)
    requires rails >= 2
    reads fence
  {
    fence.Length0 == rails && fence.Length1 == |s|
    && forall q, c :: 0 <= q < rails && 0 <= c < |s| ==>
      fence[q, c] == (if c < i && Row(c, rails) == q then [s[c]] else "")
  }

  /** Reads the zig-zag of s row by row; s itself when rails <= 1 or
      rails >= |s|. */
  method RailFenceCipher(s: string, rails: int) returns (r: string)
    ensures rails <= 1 || rails >= |s| ==> r == s
    ensures 1 < rails < |s| ==> r == Encode(s, rails)
    ensures |r| == |s| && multiset(r) == multiset(s)
  {
    if rails <= 1 || rails >= |s| {
      return s;
    }
    var fence := DrawFence(s, rails);
    r := ReadFence(fence, s, rails);
    BeforeAll(rails, |s|);
    EncodePermutes(s, rails);
  }

  /** The first pass: a rails x |s| grid of blanks, and the walk that writes
      each character on the rail of its column. */
  method DrawFence(s: string, rails: int) returns (fence: array2<string>)
    requires rails >= 2
    ensures fresh(fence) && Drawn(fence, s, rails, |s|)
  {
    var n := |s|;
    fence := new string[rails, n]((_, _) => "");
    var rail, direction := 0, 1;
    var i := 0;
    while i < n
      invariant 0 <= i <= n
      invariant rail == Row(i, rails) && Heading(i, rails, direction)
      invariant Drawn(fence, s, rails, i)
    {
      fence[rail, i] := [s[i]];
      var oldDirection := direction;
      if rail == 0 {
        direction := 1;
      } else if rail == rails - 1 {
        direction := -1;
      }
      Bounce(i, rails, oldDirection, direction);
      rail := rail + direction;
      i := i + 1;
    }
  }

  /** The second pass: the non-blank cells, rail after rail, left to right. */
  method ReadFence(fence: array2<string>, s: string, rails: int) returns (r: string)
    requires rails >= 2 && Drawn(fence, s, rails, |s|)
    ensures r == Encode(s, rails)
  {
    var n := |s|;
    r := [];
    var q := 0;
    while q < rails
      invariant 0 <= q <= rails
      invariant r == Fence(s, rails, q, n)
    {
      var j := 0;
      while j < n
        invariant 0 <= j <= n
        invariant r == Fence(s, rails, q, n) + RailChars(s, rails, q, j)
      {
        RailCharsNext(s, rails, q, j);
        if fence[q, j] != "" {
          AppendAssoc(Fence(s, rails, q, n), RailChars(s, rails, q, j), fence[q, j]);
          r := r + fence[q, j];
        }
        j := j + 1;
      }
      FenceNext(s, rails, q, n);
      q := q + 1;
    }
  }
}
