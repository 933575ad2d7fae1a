/** The Caesar cracker: decryption with a known shift, the two measures of
    English-likeness (a chi-squared distance of the letter frequencies from
    a fixed table, and a count of common fragments with a bonus for a normal
    share of spaces), and the attack that tries every shift and ranks the
    26 candidates. */
module CCrack {
  import opened Ascii
  import opened ZigZag
  import opened MainScreen

  // ----- decryption with a known shift -----

  /** The code of a decrypted letter, `(charCode - numericShift + 26) % 26`
      with numericShift the truncated remainder of the shift: the sum never
      drops below 1, and the result is the letter moved back by the shift,
      which is the Caesar rotation by -shift. */
  lemma DecryptCode(x: int, shift: int)
    requires 0 <= x < 26
    ensures 0 < x - TruncRem(shift, 26) + 26
    ensures TruncRem(x - TruncRem(shift, 26) + 26, 26) == Wrap(x, NormShift(-shift))
  {
    var t := TruncRem(shift, 26);
    TruncRemCongruent(shift);
    ShiftMod(x, -shift);
    var q := (shift - t) / 26;
    assert shift - t == 26 * q;
    ModShift(x - shift, q + 1);
  }

  /** The loop of decryptWithShift: the Caesar encryption with the opposite
      shift, so it undoes the main screen's Caesar encryption with the same
      shift and is undone by it. */
  method DecryptWithShift(text: string, shift: int) returns (result: string)
    ensures result == CaesarCipher(text, -shift)
    ensures CaesarCipher(result, shift) == text
    ensures forall p :: CaesarCipher(p, shift) == text ==> p == result
  {
    var numericShift := TruncRem(shift, 26);
    result := "";
    var i := 0;
    while i < |text|
      invariant 0 <= i <= |text|
      invariant result == CaesarCipher(text, -shift)[..i]
    {
      var c := text[i];
      PrefixNext(CaesarCipher(text, -shift), i);
      if IsLetter(c) {
        var isUpperCase := c == Upper(c);
        var charCode := Upper(c) as int - 65;
        assert isUpperCase == IsUpper(c);
        assert charCode == if IsUpper(c) then c as int - 65 else c as int - 97;
        DecryptCode(charCode, shift);
        var decryptedCode := TruncRem(charCode - numericShift + 26, 26);
        var decryptedChar := (decryptedCode + 65) as char;
        if !isUpperCase {
          decryptedChar := Lower(decryptedChar);
        }
        assert decryptedChar == Rotate(c, NormShift(-shift));
        result := result + [decryptedChar];
      } else {
        result := result + [c];
      }
      i := i + 1;
    }
    DecryptionInverts(text, shift);
  }

  /** Encrypting with -shift is the one inverse of encrypting with shift:
      it is undone by it, and it is the only text that encrypts to the
      given one. */
  lemma DecryptionInverts(text: string, shift: int)
    ensures CaesarCipher(CaesarCipher(text, -shift), shift) == text
    ensures forall p :: CaesarCipher(p, shift) == text ==> p == CaesarCipher(text, -shift)
  {
    CaesarUndo(text, -shift);
    forall p | CaesarCipher(p, shift) == text
      ensures p == CaesarCipher(text, -shift)
    {
      CaesarUndo(p, shift);
    }
  }

  /** The Caesar encryption keeps a text ASCII. */
  lemma CaesarKeepsAscii(s: string, k: int)
    requires IsAsciiText(s)
    ensures IsAsciiText(CaesarCipher(s, k))
  {
    forall i | 0 <= i < |s|
      ensures CaesarCipher(s, k)[i] as int < 128
    {
      CaesarShape(s, k, i);
    }
  }

  // ----- letter frequencies -----

  /** `text.toUpperCase().replace(/[^A-Z]/g, "")` on an ASCII text: its
      letters, upper-cased, in order. */
  function Clean(s: string): (t: string)
    ensures |t| == LetterCount(s)
    ensures forall i :: 0 <= i < |t| ==> IsUpper(t[i])
  {
    if s == [] then []
    else Clean(s[..|s| - 1]) + (if IsLetter(s[|s| - 1]) then [Upper(s[|s| - 1])] else [])
  }

  /** Each capital occurs in the cleaned text as often as its letter occurs
      in the text in either case. */
  lemma {:induction false} CleanCounts(s: string)
    ensures forall c :: IsUpper(c) ==> multiset(Clean(s))[c] == multiset(s)[c] + multiset(s)[Lower(c)]
  {
    if s != [] {
      var u, x := s[..|s| - 1], s[|s| - 1];
      CleanCounts(u);
      assert s == u + [x];
      CleanCountsNext(Clean(u), u, x);
    }
  }

  /** Appending one character to a text and, when it is a letter, its
      capital to the cleaned text keeps each capital's count equal to the
      count of that letter in either case. */
  lemma CleanCountsNext(t: string, s: string, x: char)
    requires forall c :: IsUpper(c) ==> multiset(t)[c] == multiset(s)[c] + multiset(s)[Lower(c)]
    ensures forall c :: IsUpper(c) ==>
      multiset(t + (if IsLetter(x) then [Upper(x)] else []))[c]
        == multiset(s + [x])[c] + multiset(s + [x])[Lower(c)]
  {
    var piece := if IsLetter(x) then [Upper(x)] else [];
    assert multiset(t + piece) == multiset(t) + multiset(piece);
    assert multiset(s + [x]) == multiset(s) + multiset{x};
    forall c | IsUpper(c)
      ensures multiset(t + piece)[c] == multiset(s + [x])[c] + multiset(s + [x])[Lower(c)]
    {
      assert x == c || x == Lower(c) <==> IsLetter(x) && Upper(x) == c;
    }
  }

  /** How often each character occurs in t, for the characters that do. */
  function Counts(t: string): map<char, real> {
    map c | c in multiset(t) :: multiset(t)[c] as real
  }

  /** The table getFrequencies returns: empty for a text without letters,
      otherwise each letter that occurs with its count divided by the
      number of letters. */
  function Frequencies(text: string): (f: map<char, real>)
    ensures f == map[] <==> LetterCount(text) == 0
    ensures forall c :: c in f ==> IsUpper(c)
  {
    var t := Clean(text);
    if |t| == 0 then map[]
    else
      var f := map c | c in multiset(t) :: multiset(t)[c] as real / |t| as real;
      assert t[0] in f;
      f
  }

  /** Counting one more character. */
  lemma CountsNext(t: string, x: char)
    ensures Counts(t + [x]) == Counts(t)[x := (if x in Counts(t) then Counts(t)[x] else 0.0) + 1.0]
  {
    assert multiset(t + [x]) == multiset(t) + multiset{x};
  }

  method GetFrequencies(text: string) returns (frequencies: map<char, real>)
    requires IsAsciiText(text)
    ensures frequencies == Frequencies(text)
  {
    var cleanText := Clean(text);
    var total := |cleanText|;
    if total == 0 {
      return map[];
    }
    frequencies := CountLetters(cleanText);
    frequencies := Normalise(frequencies, total);
    CountsOverTotal(text);
  }

  /** The first loop of getFrequencies: `(frequencies[char] || 0) + 1` for
      every character of the cleaned text. */
  method CountLetters(cleanText: string) returns (frequencies: map<char, real>)
    ensures frequencies == Counts(cleanText)
  {
    frequencies := map[];
    var i := 0;
    while i < |cleanText|
      invariant 0 <= i <= |cleanText|
      invariant frequencies == Counts(cleanText[..i])
    {
      var ch := cleanText[i];
      CountsNext(cleanText[..i], ch);
      PrefixNext(cleanText, i);
      frequencies := frequencies[ch := (if ch in frequencies then frequencies[ch] else 0.0) + 1.0];
      i := i + 1;
    }
    assert cleanText[..i] == cleanText;
  }

  /** The counts of the letters divided by their number are the table. */
  lemma CountsOverTotal(text: string)
    requires LetterCount(text) > 0
    ensures (map l | l in Counts(Clean(text)) :: Counts(Clean(text))[l] / LetterCount(text) as real)
         == Frequencies(text)
  {
  }

  /** The second loop of getFrequencies: every count, in whatever order the
      keys come, divided by the total. */
  method Normalise(counts: map<char, real>, total: nat) returns (frequencies: map<char, real>)
    requires total > 0
    ensures frequencies == map l | l in counts :: counts[l] / total as real
  {
    frequencies := counts;
    var pending := frequencies.Keys;
    while pending != {}
      invariant pending <= counts.Keys && frequencies.Keys == counts.Keys
      invariant forall l :: l in counts ==>
        frequencies[l] == if l in pending then counts[l] else counts[l] / total as real
      decreases |pending|
    {
      var letter :| letter in pending;
      frequencies := frequencies[letter := frequencies[letter] / total as real];
      pending := pending - {letter};
    }
  }

  /** A character occurs in t at most |t| times. */
  lemma {:induction false} CountAtMost(t: string, c: char)
    ensures multiset(t)[c] <= |t|
  {
    if t != [] {
      CountAtMost(t[..|t| - 1], c);
      assert t == t[..|t| - 1] + [t[|t| - 1]];
      assert multiset(t) == multiset(t[..|t| - 1]) + multiset{t[|t| - 1]};
    }
  }

  lemma RatioBounds(a: real, n: real)
    requires 0.0 < a <= n
    ensures 0.0 < a / n <= 1.0
  {
  }

  /** Every relative frequency lies in (0, 1]. */
  lemma FrequenciesBounds(text: string, c: char)
    requires c in Frequencies(text)
    ensures 0.0 < Frequencies(text)[c] <= 1.0
  {
    var t := Clean(text);
    CountAtMost(t, c);
    RatioBounds(multiset(t)[c] as real, |t| as real);
  }

  /** The capital letter with code 65 + i. */
  function Letter(i: int): (c: char)
    requires 0 <= i < 26
    ensures IsUpper(c) && c as int - 65 == i
  {
    (65 + i) as char
  }

  /** `table[c] || 0`: the entry for c, and 0 for a missing one. */
  function Lookup(table: map<char, real>, c: char): (r: real)
    ensures r != 0.0 ==> c in table
    ensures (forall d :: d in table ==> table[d] > 0.0) ==> (r > 0.0 <==> c in table)
  {
    if c in table then table[c] else 0.0
  }

  /** The entries of the first k capital letters added up. */
  function LetterSum(table: map<char, real>, k: int): real
    requires 0 <= k <= 26
  {
    if k == 0 then 0.0 else LetterSum(table, k - 1) + Lookup(table, Letter(k - 1))
  }

  /** How many characters of t are among the first k capital letters. */
  function Tally(t: string, k: int): nat
    requires 0 <= k <= 26
  {
    if k == 0 then 0 else Tally(t, k - 1) + multiset(t)[Letter(k - 1)]
  }

  lemma {:induction false} TallyAppend(t: string, x: char, k: int)
    requires 0 <= k <= 26 && IsUpper(x)
    ensures Tally(t + [x], k) == Tally(t, k) + (if x as int - 65 < k then 1 else 0)
  {
    if k > 0 {
      TallyAppend(t, x, k - 1);
      assert multiset(t + [x]) == multiset(t) + multiset{x};
      assert Letter(k - 1) == x <==> x as int - 65 == k - 1;
    }
  }

  /** In a text of capitals, the counts of A to Z add up to its length. */
  lemma {:induction false} TallyAll(t: string)
    requires forall i :: 0 <= i < |t| ==> IsUpper(t[i])
    ensures Tally(t, 26) == |t|
  {
    if t == [] {
      TallyEmpty(26);
    } else {
      var u, x := t[..|t| - 1], t[|t| - 1];
      TallyAll(u);
      assert t == u + [x];
      TallyAppend(u, x, 26);
    }
  }

  lemma {:induction false} TallyEmpty(k: int)
    requires 0 <= k <= 26
    ensures Tally([], k) == 0
  {
    if k > 0 {
      TallyEmpty(k - 1);
    }
  }

  lemma SumStep(sum: real, sum0: real, x: real, a: real, b: real, total: real, n: real)
    requires n > 0.0 && sum == sum0 + x && sum0 == a / n && x == b / n && total == a + b
    ensures sum == total / n
  {
  }

  /** Entries that are counts in t over n add up, over the first k letters,
      to the tally of t over n. */
  lemma {:induction false} SumOfRatios(f: map<char, real>, t: string, n: real, k: int)
    requires 0 <= k <= 26 && n > 0.0
    requires forall c :: Lookup(f, c) == multiset(t)[c] as real / n
    ensures LetterSum(f, k) == Tally(t, k) as real / n
  {
    if k > 0 {
      SumOfRatios(f, t, n, k - 1);
      var c := Letter(k - 1);
      var a, b := Tally(t, k - 1), multiset(t)[c];
      SumStep(LetterSum(f, k), LetterSum(f, k - 1), Lookup(f, c), a as real, b as real, Tally(t, k) as real, n);
    }
  }

  /** What `frequencies[c] || 0` reads: for a capital c, the number of
      times c occurs in the text in either case over the number of letters,
      0 for a letter that does not occur; for any other character, 0. */
  lemma FrequencyOf(text: string, c: char)
    requires LetterCount(text) > 0
    ensures Lookup(Frequencies(text), c) == multiset(Clean(text))[c] as real / LetterCount(text) as real
    ensures IsUpper(c) ==>
      Lookup(Frequencies(text), c) == (multiset(text)[c] + multiset(text)[Lower(c)]) as real / LetterCount(text) as real
    ensures !IsUpper(c) ==> Lookup(Frequencies(text), c) == 0.0
  {
    var t := Clean(text);
    var n := |t| as real;
    CleanCounts(text);
    if c !in multiset(t) {
      assert multiset(t)[c] == 0;
      ZeroDiv(n);
    }
  }

  lemma ZeroDiv(n: real)
    requires n > 0.0
    ensures 0.0 / n == 0.0
  {
  }

  lemma DivSelf(n: real)
    requires n > 0.0
    ensures n / n == 1.0
  {
  }

  /** The per-letter counts add up to the number of letters, so the
      frequencies of A to Z add up to 1. */
  lemma FrequenciesSumToOne(text: string)
    requires LetterCount(text) > 0
    ensures Tally(Clean(text), 26) == LetterCount(text)
    ensures LetterSum(Frequencies(text), 26) == 1.0
  {
    var n := LetterCount(text) as real;
    forall c
      ensures Lookup(Frequencies(text), c) == multiset(Clean(text))[c] as real / n
    {
      FrequencyOf(text, c);
    }
    SumOfRatios(Frequencies(text), Clean(text), n, 26);
    TallyAll(Clean(text));
    DivSelf(n);
  }

  // ----- chi-squared against English -----

  /** `ENGLISH_FREQUENCIES[c] || 0`: the relative frequency of the capital
      c in English text, and 0 for any other character. */
  function EnglishFrequency(c: char): (f: real)
    ensures 0.0 <= f <= 0.1202
  {
    match c
    case 'E' => 0.1202 case 'T' => 0.091 case 'A' => 0.0812 case 'O' => 0.0768
    case 'I' => 0.0731 case 'N' => 0.0695 case 'S' => 0.0628 case 'R' => 0.0602
    case 'H' => 0.0592 case 'D' => 0.0432 case 'L' => 0.0398 case 'U' => 0.0288
    case 'C' => 0.0271 case 'M' => 0.0261 case 'F' => 0.023 case 'Y' => 0.0211
    case 'W' => 0.0209 case 'G' => 0.0203 case 'P' => 0.0182 case 'B' => 0.0149
    case 'V' => 0.0111 case 'K' => 0.0069 case 'X' => 0.0017 case 'Q' => 0.0011
    case 'J' => 0.001 case 'Z' => 0.0007
    case _ => 0.0
  }

  /** The table has a positive entry for exactly the 26 capital letters, so
      the division guard never skips a letter. */
  lemma EnglishTableComplete(c: char)
    ensures EnglishFrequency(c) > 0.0 <==> IsUpper(c)
  {
  }

  /** `Math.pow(observed - expected, 2) / expected`, over the reals. */
  function Deviation(observed: real, expected: real): (t: real)
    requires expected > 0.0
    ensures t >= 0.0
  {
    var d := observed - expected;
    SquareNonNegative(d);
    QuotientNonNegative(d * d, expected);
    d * d / expected
  }

  /** The term of letter i: its deviation from English, or nothing when the
      expected frequency is not positive. */
  function ChiTerm(frequencies: map<char, real>, i: int): (t: real)
    requires 0 <= i < 26
    ensures t >= 0.0
  {
    var observed := Lookup(frequencies, Letter(i));
    var expected := EnglishFrequency(Letter(i));
    if expected > 0.0 then Deviation(observed, expected) else 0.0
  }

  lemma SquareNonNegative(x: real)
    ensures x * x >= 0.0
  {
  }

  lemma ProductZero(a: real, b: real)
    ensures a * b == 0.0 ==> a == 0.0 || b == 0.0
  {
  }

  lemma QuotientNonNegative(a: real, b: real)
    requires a >= 0.0 && b > 0.0
    ensures a / b >= 0.0
  {
  }

  /** The terms of the first k letters added up. */
  function ChiSum(frequencies: map<char, real>, k: int): (r: real)
    requires 0 <= k <= 26
    ensures r >= 0.0
  {
    if k == 0 then 0.0 else ChiSum(frequencies, k - 1) + ChiTerm(frequencies, k - 1)
  }

  method CalculateChiSquared(frequencies: map<char, real>) returns (chiSquared: real)
    ensures chiSquared == ChiSum(frequencies, 26)
    ensures chiSquared >= 0.0
  {
    chiSquared := 0.0;
    var i := 0;
    while i < 26
      invariant 0 <= i <= 26
      invariant chiSquared == ChiSum(frequencies, i)
    {
      var letter := (65 + i) as char;
      var observed := Lookup(frequencies, letter);
      var expected := EnglishFrequency(letter);
      if expected > 0.0 {
        chiSquared := chiSquared + Deviation(observed, expected);
      }
      i := i + 1;
    }
  }

  /** A term vanishes exactly when the observed frequency is the expected
      one. */
  lemma ChiTermZero(frequencies: map<char, real>, i: int)
    requires 0 <= i < 26
    ensures ChiTerm(frequencies, i) == 0.0 <==> Lookup(frequencies, Letter(i)) == EnglishFrequency(Letter(i))
  {
    EnglishTableComplete(Letter(i));
    var observed := Lookup(frequencies, Letter(i));
    var expected := EnglishFrequency(Letter(i));
    var d := observed - expected;
    SquareNonNegative(d);
    ProductZero(d, d);
    QuotientZero(d * d, expected);
    if d == 0.0 {
      ZeroDiv(expected);
    }
  }

  lemma QuotientZero(a: real, b: real)
    requires a >= 0.0 && b > 0.0
    ensures a / b == 0.0 ==> a == 0.0
  {
  }

  /** The sum over the first k letters vanishes exactly when each of them is
      observed at its English frequency. */
  lemma {:induction false} ChiSumZero(frequencies: map<char, real>, k: int)
    requires 0 <= k <= 26
    ensures ChiSum(frequencies, k) == 0.0 <==>
      forall i :: 0 <= i < k ==> ChiTerm(frequencies, i) == 0.0
  {
    if k > 0 {
      ChiSumZero(frequencies, k - 1);
      SumZero(ChiSum(frequencies, k), ChiSum(frequencies, k - 1), ChiTerm(frequencies, k - 1));
    }
  }

  lemma SumZero(sum: real, sum0: real, t: real)
    requires sum == sum0 + t && sum0 >= 0.0 && t >= 0.0
    ensures sum == 0.0 <==> sum0 == 0.0 && t == 0.0
  {
  }

  /** The chi-squared distance is zero exactly when the table of
      frequencies agrees with English on every capital letter. */
  lemma ChiSquaredZero(frequencies: map<char, real>)
    ensures ChiSum(frequencies, 26) == 0.0 <==>
      forall i :: 0 <= i < 26 ==> Lookup(frequencies, Letter(i)) == EnglishFrequency(Letter(i))
  {
    ChiSumZero(frequencies, 26);
    forall i | 0 <= i < 26
      ensures ChiTerm(frequencies, i) == 0.0 <==> Lookup(frequencies, Letter(i)) == EnglishFrequency(Letter(i))
    {
      ChiTermZero(frequencies, i);
    }
  }

  /** The English frequencies of the first k capital letters added up. */
  function EnglishSum(k: int): real
    requires 0 <= k <= 26
  {
    if k == 0 then 0.0 else EnglishSum(k - 1) + EnglishFrequency(Letter(k - 1))
  }

  /** The English table adds up to 0.9999, not to 1. */
  lemma EnglishTotal()
    ensures EnglishSum(26) == 0.9999
  {
    assert EnglishSum(3) == 0.1232;
    assert EnglishSum(6) == 0.3096;
    assert EnglishSum(9) == 0.4622;
    assert EnglishSum(12) == 0.5099;
    assert EnglishSum(15) == 0.6823;
    assert EnglishSum(18) == 0.7618;
    assert EnglishSum(21) == 0.9444;
    assert EnglishSum(24) == 0.9781;
  }

  /** A table that agrees with English on the first k letters has their
      English sum. */
  lemma {:induction false} EnglishLike(frequencies: map<char, real>, k: int)
    requires 0 <= k <= 26
    requires forall i :: 0 <= i < k ==> Lookup(frequencies, Letter(i)) == EnglishFrequency(Letter(i))
    ensures LetterSum(frequencies, k) == EnglishSum(k)
  {
    if k > 0 {
      EnglishLike(frequencies, k - 1);
    }
  }

  lemma {:induction false} EmptyLetterSum(k: int)
    requires 0 <= k <= 26
    ensures LetterSum(map[], k) == 0.0
  {
    if k > 0 {
      EmptyLetterSum(k - 1);
    }
  }

  /** No text scores a chi-squared of zero: its frequencies add up to 1, or
      to 0 without letters, while the English table adds up to 0.9999. */
  lemma ChiSquaredPositive(text: string)
    ensures ChiSum(Frequencies(text), 26) > 0.0
  {
    var f := Frequencies(text);
    ChiSquaredZero(f);
    if ChiSum(f, 26) == 0.0 {
      EnglishLike(f, 26);
      EnglishTotal();
      if LetterCount(text) == 0 {
        EmptyLetterSum(26);
      } else {
        FrequenciesSumToOne(text);
      }
    }
  }

  // ----- the English score -----

  /** The fragments whose matches the score counts. */
  const CommonPatterns: seq<string> := [
    "the", "and", "ing", "ent", "ion", "to", "ed", "is", "it", "in",
    "at", "es", "re", "on", "an", "er", "nd", "as", "or", "ar"]

  /** `toLowerCase` on an ASCII text. */
  function ToLower(s: string): (l: string)
    ensures |l| == |s|
  {
    seq(|s|, i requires 0 <= i < |s| => Lower(s[i]))
  }

  /** The number of matches `t.match(new RegExp(p, "g"))` returns for a
      literal p, scanning from position i: each match is the leftmost one
      at or after the end of the previous match. */
  function Matches(t: string, p: string, i: nat): (m: nat)
    requires |p| > 0 && i <= |t|
    ensures m * |p| <= |t| - i
    decreases |t| - i
  {
    if i + |p| > |t| then 0
    else if t[i..i + |p|] == p then 1 + Matches(t, p, i + |p|)
    else Matches(t, p, i + 1)
  }

  predicate OccursAt(t: string, p: string, j: int) {
    0 <= j && j + |p| <= |t| && t[j..j + |p|] == p
  }

  /** The number of positions at or after i where p starts in t, overlapping
      occurrences included. */
  function Occurrences(t: string, p: string, i: nat): nat
    requires i <= |t|
    decreases |t| - i
  {
    if i == |t| then 0
    else (if OccursAt(t, p, i) then 1 else 0) + Occurrences(t, p, i + 1)
  }

  /** No proper suffix of p is also a prefix of p, so two occurrences of p can
      never overlap. */
  predicate OverlapFree(p: string) {
    forall d :: 0 < d < |p| ==> p[d..] != p[..|p| - d]
  }

  /** Two occurrences at distance d < |p| make the last |p| - d characters of
      p equal to its first |p| - d. */
  lemma OverlapBorder(t: string, p: string, i: int, d: int)
    requires OccursAt(t, p, i) && OccursAt(t, p, i + d) && 0 < d < |p|
    ensures p[d..] == p[..|p| - d]
  {
    forall k | 0 <= k < |p| - d
      ensures p[d..][k] == p[..|p| - d][k]
    {
      assert p[d + k] == t[i..i + |p|][d + k] == t[i + d + k];
      assert p[k] == t[i + d..i + d + |p|][k] == t[i + d + k];
    }
  }

  /** After an occurrence of an overlap-free p at i, the next one starts at
      i + |p| or later. */
  lemma {:induction false} NoneInside(t: string, p: string, i: nat, m: nat)
    requires OverlapFree(p) && OccursAt(t, p, i) && 1 <= m <= |p|
    ensures Occurrences(t, p, i + 1) == Occurrences(t, p, i + m)
    decreases m
  {
    if m > 1 {
      NoneInside(t, p, i, m - 1);
      if OccursAt(t, p, i + m - 1) {
        OverlapBorder(t, p, i, m - 1);
        assert false;
      }
    }
  }

  /** Where p no longer fits, it does not occur. */
  lemma {:induction false} NoRoom(t: string, p: string, i: nat)
    requires i <= |t| && i + |p| > |t|
    ensures Occurrences(t, p, i) == 0
    decreases |t| - i
  {
    if i < |t| {
      NoRoom(t, p, i + 1);
    }
  }

  /** For an overlap-free fragment the regular expression's match count is
      the number of places the fragment occurs. */
  lemma {:induction false} MatchesAreOccurrences(t: string, p: string, i: nat)
    requires |p| > 0 && OverlapFree(p) && i <= |t|
    ensures Matches(t, p, i) == Occurrences(t, p, i)
    decreases |t| - i
  {
    if i + |p| > |t| {
      NoRoom(t, p, i);
    } else if t[i..i + |p|] == p {
      MatchesAreOccurrences(t, p, i + |p|);
      NoneInside(t, p, i, |p|);
    } else {
      MatchesAreOccurrences(t, p, i + 1);
    }
  }

  lemma ShortOverlapFree(p: string)
    requires 2 <= |p| <= 3 && p[0] != p[|p| - 1]
    requires |p| == 3 ==> p[0] != p[1]
    ensures OverlapFree(p)
  {
    forall d | 0 < d < |p|
      ensures p[d..] != p[..|p| - d]
    {
      assert p[d..][|p| - d - 1] == p[|p| - 1];
      assert p[..|p| - d][|p| - d - 1] == p[|p| - d - 1];
      if d == 1 && |p| == 3 {
        assert p[d..][0] == p[1];
      }
    }
  }

  /** None of the twenty fragments can overlap itself. */
  lemma CommonPatternsOverlapFree()
    ensures forall k :: 0 <= k < |CommonPatterns| ==> |CommonPatterns[k]| > 0 && OverlapFree(CommonPatterns[k])
  {
    forall k | 0 <= k < |CommonPatterns|
      ensures |CommonPatterns[k]| > 0 && OverlapFree(CommonPatterns[k])
    {
      ShortOverlapFree(CommonPatterns[k]);
    }
  }

  /** The match counts of the first k fragments in t added up. */
  function PatternScore(t: string, k: int): (n: nat)
    requires 0 <= k <= |CommonPatterns|
    ensures n <= k * |t|
  {
    if k == 0 then 0
    else
      CommonPatternsOverlapFree();
      var m := Matches(t, CommonPatterns[k - 1], 0);
      MatchesAtMost(m, |CommonPatterns[k - 1]|, k, |t|);
      PatternScore(t, k - 1) + m
  }

  /** A match count m with m·p <= len is at most len, and adding it to a
      bound of (k - 1)·len gives k·len. */
  lemma MatchesAtMost(m: nat, p: nat, k: nat, len: nat)
    requires p >= 1 && m * p <= len && k >= 1
    ensures m <= len && (k - 1) * len + len == k * len
  {
    assert m * p >= m * 1;
  }

  /** `(text.match(/ /g) || []).length`. */
  function SpaceCount(text: string): (n: nat)
    ensures n <= |text|
  {
    Matches(text, " ", 0)
  }

  /** Whether the share of spaces, as a real ratio, lies strictly between
      0.1 and 0.25; it never holds for a text without spaces or of spaces
      only. */
  predicate SpaceBonus(text: string)
    ensures SpaceBonus(text) ==> 0 < SpaceCount(text) < |text|
  {
    if |text| == 0 then false
    else
      var spaceRatio := SpaceCount(text) as real / |text| as real;
      RatioAbove(SpaceCount(text) as real, |text| as real);
      spaceRatio > 0.1 && spaceRatio < 0.25
  }

  /** The score scoreEnglishText computes. */
  function Score(text: string): (score: int)
    ensures score >= 0
    ensures SpaceBonus(text) ==> score >= 10
  {
    PatternScore(ToLower(text), |CommonPatterns|) + (if SpaceBonus(text) then 10 else 0)
  }

  method ScoreEnglishText(text: string) returns (score: int)
    requires IsAsciiText(text)
    ensures score == Score(text) && score >= 0
  {
    var lowerText := ToLower(text);
    score := 0;
    CommonPatternsOverlapFree();
    var k := 0;
    while k < |CommonPatterns|
      invariant 0 <= k <= |CommonPatterns|
      invariant score == PatternScore(lowerText, k)
    {
      var pattern := CommonPatterns[k];
      var matches := Matches(lowerText, pattern, 0);
      if matches > 0 {
        score := score + matches;
      }
      k := k + 1;
    }
    var spaceCount := Matches(text, " ", 0);
    if |text| > 0 {
      var spaceRatio := spaceCount as real / |text| as real;
      if spaceRatio > 0.1 && spaceRatio < 0.25 {
        score := score + 10;
      }
    }
  }

  /** The bonus in integers: more than one space in ten characters and fewer
      than one in four. */
  lemma SpaceBonusExact(text: string)
    ensures SpaceBonus(text) <==>
      |text| > 0 && 10 * SpaceCount(text) > |text| && 4 * SpaceCount(text) < |text|
  {
    if |text| > 0 {
      RatioAbove(SpaceCount(text) as real, |text| as real);
    }
  }

  lemma RatioAbove(s: real, n: real)
    requires n > 0.0
    ensures s / n > 0.1 <==> 10.0 * s > n
    ensures s / n < 0.25 <==> 4.0 * s < n
  {
    assert (s / n) * n == s;
  }

  /** The counts of the first k fragments as occurrence counts. */
  function OccurrenceScore(t: string, k: int): nat
    requires 0 <= k <= |CommonPatterns|
  {
    if k == 0 then 0 else OccurrenceScore(t, k - 1) + Occurrences(t, CommonPatterns[k - 1], 0)
  }

  lemma {:induction false} PatternScoreCountsOccurrences(t: string, k: int)
    requires 0 <= k <= |CommonPatterns|
    ensures PatternScore(t, k) == OccurrenceScore(t, k)
  {
    if k > 0 {
      PatternScoreCountsOccurrences(t, k - 1);
      CommonPatternsOverlapFree();
      MatchesAreOccurrences(t, CommonPatterns[k - 1], 0);
    }
  }

  /** The score counts, over the lower-cased text, every place each fragment
      starts, plus 10 for a share of spaces strictly between one tenth and one
      quarter. */
  lemma ScoreMeaning(text: string)
    ensures Score(text) == OccurrenceScore(ToLower(text), |CommonPatterns|)
      + (if |text| > 0 && 10 * SpaceCount(text) > |text| && 4 * SpaceCount(text) < |text| then 10 else 0)
  {
    PatternScoreCountsOccurrences(ToLower(text), |CommonPatterns|);
    SpaceBonusExact(text);
  }

  /** The spaces counted are all the spaces of the text. */
  lemma SpaceCountMeaning(text: string)
    ensures SpaceCount(text) == Occurrences(text, " ", 0)
  {
    MatchesAreOccurrences(text, " ", 0);
  }

  // ----- the brute-force attack -----

  datatype Candidate = Candidate(shift: int, chiSquared: real, score: int, preview: string, fullText: string)

  /** `t.substring(0, 100) + (t.length > 100 ? "..." : "")`. */
  function Preview(t: string): (p: string)
    ensures |t| <= 100 ==> p == t
    ensures |t| > 100 ==> |p| == 103 && p[..100] == t[..100] && p[100..] == "..."
  {
    (if |t| <= 100 then t else t[..100]) + (if |t| > 100 then "..." else "")
  }

  /** The candidate for one shift: the decryption, its chi-squared distance
      and its score. */
  function Analyse(ciphertext: string, shift: int): (c: Candidate)
    ensures c.shift == shift && c.fullText == CaesarCipher(ciphertext, -shift)
  {
    var decrypted := CaesarCipher(ciphertext, -shift);
    Candidate(shift, ChiSum(Frequencies(decrypted), 26), Score(decrypted), Preview(decrypted), decrypted)
  }

  /** The candidates in the order the attack builds them: shifts 0 to 25. */
  function Candidates(ciphertext: string): (cs: seq<Candidate>)
    ensures |cs| == 26
    ensures forall s :: 0 <= s < 26 ==> cs[s] == Analyse(ciphertext, s)
  {
    seq(26, s requires 0 <= s < 26 => Analyse(ciphertext, s))
  }

  // A stable sort, as `Array.prototype.sort` is: each element is inserted
  // after every element whose key is not larger.

  /** Inserting x only adds x. */
  function Insert(t: seq<Candidate>, x: Candidate, key: Candidate -> real): (r: seq<Candidate>)
    ensures |r| == |t| + 1
    ensures multiset(r) == multiset(t) + multiset{x}
    decreases |t|
  {
    if t == [] then [x]
    else if key(t[|t| - 1]) <= key(x) then t + [x]
    else
      var u, y := t[..|t| - 1], t[|t| - 1];
      assert t == u + [y];
      Insert(u, x, key) + [y]
  }

  /** Sorting only reorders. */
  function SortBy(s: seq<Candidate>, key: Candidate -> real): (r: seq<Candidate>)
    ensures |r| == |s|
    ensures multiset(r) == multiset(s)
    decreases |s|
  {
    if s == [] then []
    else
      var u, y := s[..|s| - 1], s[|s| - 1];
      assert s == u + [y];
      Insert(SortBy(u, key), y, key)
  }

  /** Whether o is sorted by key, and pairs of equal key are in prec order. */
  predicate Ordered(o: seq<Candidate>, key: Candidate -> real, prec: (Candidate, Candidate) -> bool) {
    forall i, j :: 0 <= i < j < |o| ==>
      key(o[i]) < key(o[j]) || (key(o[i]) == key(o[j]) && prec(o[i], o[j]))
  }

  /** Whether every pair of s is in prec order. */
  predicate Pairwise(s: seq<Candidate>, prec: (Candidate, Candidate) -> bool) {
    forall i, j :: 0 <= i < j < |s| ==> prec(s[i], s[j])
  }

  lemma InMultiset(t: seq<Candidate>, i: int)
    requires 0 <= i < |t|
    ensures t[i] in multiset(t)
  {
  }

  /** Appending an element that comes after every element in order keeps
      a sequence ordered. */
  lemma AppendOrdered(t: seq<Candidate>, x: Candidate, key: Candidate -> real,
                      prec: (Candidate, Candidate) -> bool)
    requires Ordered(t, key, prec)
    requires forall i :: 0 <= i < |t| ==> key(t[i]) < key(x) || (key(t[i]) == key(x) && prec(t[i], x))
    ensures Ordered(t + [x], key, prec)
  {
    var r := t + [x];
    forall i, j | 0 <= i < j < |r|
      ensures key(r[i]) < key(r[j]) || (key(r[i]) == key(r[j]) && prec(r[i], r[j]))
    {
      assert r[i] == t[i];
    }
  }

  /** An element equal to one of t or to x is in order before y. */
  lemma InsertedBefore(t: seq<Candidate>, x: Candidate, y: Candidate, key: Candidate -> real,
                       prec: (Candidate, Candidate) -> bool)
    requires key(x) < key(y)
    requires forall i :: 0 <= i < |t| ==> key(t[i]) < key(y) || (key(t[i]) == key(y) && prec(t[i], y))
    ensures forall i :: 0 <= i < |Insert(t, x, key)| ==>
      var z := Insert(t, x, key)[i]; key(z) < key(y) || (key(z) == key(y) && prec(z, y))
  {
    var v := Insert(t, x, key);
    forall i | 0 <= i < |v|
      ensures key(v[i]) < key(y) || (key(v[i]) == key(y) && prec(v[i], y))
    {
      InMultiset(v, i);
      if v[i] != x {
        assert v[i] in multiset(t);
        var k :| 0 <= k < |t| && t[k] == v[i];
      }
    }
  }

  lemma {:induction false} InsertOrdered(t: seq<Candidate>, x: Candidate, key: Candidate -> real,
                                          prec: (Candidate, Candidate) -> bool)
    requires Ordered(t, key, prec)
    requires forall i :: 0 <= i < |t| ==> prec(t[i], x)
    ensures Ordered(Insert(t, x, key), key, prec)
    decreases |t|
  {
    if t == [] {
    } else if key(t[|t| - 1]) <= key(x) {
      forall i | 0 <= i < |t| - 1
        ensures key(t[i]) <= key(t[|t| - 1])
      {
      }
      AppendOrdered(t, x, key, prec);
    } else {
      var u, y := t[..|t| - 1], t[|t| - 1];
      assert Ordered(u, key, prec) by {
        forall i, j | 0 <= i < j < |u|
          ensures key(u[i]) < key(u[j]) || (key(u[i]) == key(u[j]) && prec(u[i], u[j]))
        {
          assert u[i] == t[i] && u[j] == t[j];
        }
      }
      InsertOrdered(u, x, key, prec);
      forall i | 0 <= i < |u|
        ensures key(u[i]) < key(y) || (key(u[i]) == key(y) && prec(u[i], y))
      {
        assert u[i] == t[i];
      }
      InsertedBefore(u, x, y, key, prec);
      AppendOrdered(Insert(u, x, key), y, key, prec);
    }
  }

  /** Sorting a sequence whose pairs are all in prec order yields one
      sorted by key with ties in prec order: the sort is stable. */
  lemma {:induction false} SortOrdered(s: seq<Candidate>, key: Candidate -> real,
                                        prec: (Candidate, Candidate) -> bool)
    requires Pairwise(s, prec)
    ensures Ordered(SortBy(s, key), key, prec)
    decreases |s|
  {
    if s != [] {
      var u, y := s[..|s| - 1], s[|s| - 1];
      assert Pairwise(u, prec) by {
        forall i, j | 0 <= i < j < |u|
          ensures prec(u[i], u[j])
        {
          assert u[i] == s[i] && u[j] == s[j];
        }
      }
      SortOrdered(u, key, prec);
      var o := SortBy(u, key);
      forall i | 0 <= i < |o|
        ensures prec(o[i], y)
      {
        InMultiset(o, i);
        assert o[i] in multiset(u);
        var k :| 0 <= k < |u| && u[k] == o[i];
        assert s[k] == u[k];
      }
      InsertOrdered(o, y, key, prec);
    }
  }

  // ----- the two rankings -----

  /** The comparator `(a, b) => b.score - a.score`: higher scores first. */
  function ScoreKey(c: Candidate): real { -(c.score as real) }

  /** The comparator `(a, b) => a.chiSquared - b.chiSquared`: lower first. */
  function ChiKey(c: Candidate): real { c.chiSquared }

  predicate ShiftBefore(a: Candidate, b: Candidate) { a.shift < b.shift }

  /** The order of the score ranking: higher score, then lower shift. */
  predicate ScoreBefore(a: Candidate, b: Candidate) {
    a.score > b.score || (a.score == b.score && a.shift < b.shift)
  }

  /** `results.sort((a, b) => b.score - a.score)` on the candidates. */
  function ByScore(ciphertext: string): (r: seq<Candidate>)
    ensures |r| == 26 && multiset(r) == multiset(Candidates(ciphertext))
  {
    SortBy(Candidates(ciphertext), ScoreKey)
  }

  /** `[...results].sort((a, b) => a.chiSquared - b.chiSquared)` on the
      score ranking. */
  function ByChi(ciphertext: string): (r: seq<Candidate>)
    ensures |r| == 26 && multiset(r) == multiset(ByScore(ciphertext))
  {
    SortBy(ByScore(ciphertext), ChiKey)
  }

  /** The comparator `(a, b) => b.score - a.score` puts a first (negative),
      keeps the pair (zero) or puts b first (positive) exactly as ScoreKey
      orders the two. */
  lemma ScoreComparator(a: Candidate, b: Candidate)
    ensures b.score - a.score < 0 <==> ScoreKey(a) < ScoreKey(b)
    ensures b.score - a.score == 0 <==> ScoreKey(a) == ScoreKey(b)
    ensures b.score - a.score > 0 <==> ScoreKey(a) > ScoreKey(b)
  {
  }

  /** The comparator `(a, b) => a.chiSquared - b.chiSquared` agrees in sign
      with the order ChiKey gives. */
  lemma ChiComparator(a: Candidate, b: Candidate)
    ensures a.chiSquared - b.chiSquared < 0.0 <==> ChiKey(a) < ChiKey(b)
    ensures a.chiSquared - b.chiSquared == 0.0 <==> ChiKey(a) == ChiKey(b)
    ensures a.chiSquared - b.chiSquared > 0.0 <==> ChiKey(a) > ChiKey(b)
  {
  }

  lemma CandidatesByShift(ciphertext: string)
    ensures Pairwise(Candidates(ciphertext), ShiftBefore)
  {
  }

  /** The score ranking holds the 26 candidates, by descending score, and
      candidates of equal score by ascending shift. */
  lemma ScoreRanking(ciphertext: string)
    ensures multiset(ByScore(ciphertext)) == multiset(Candidates(ciphertext))
    ensures Pairwise(ByScore(ciphertext), ScoreBefore)
  {
    var o := ByScore(ciphertext);
    CandidatesByShift(ciphertext);
    SortOrdered(Candidates(ciphertext), ScoreKey, ShiftBefore);
    forall i, j | 0 <= i < j < |o|
      ensures ScoreBefore(o[i], o[j])
    {
      assert ScoreKey(o[i]) < ScoreKey(o[j])
        || (ScoreKey(o[i]) == ScoreKey(o[j]) && ShiftBefore(o[i], o[j]));
    }
  }

  /** The chi-squared ranking holds the same candidates, by ascending
      chi-squared, and candidates of equal chi-squared in score order. */
  lemma ChiRanking(ciphertext: string)
    ensures multiset(ByChi(ciphertext)) == multiset(Candidates(ciphertext))
    ensures Ordered(ByChi(ciphertext), ChiKey, ScoreBefore)
  {
    ScoreRanking(ciphertext);
    SortOrdered(ByScore(ciphertext), ChiKey, ScoreBefore);
  }

  /** Whether b is the shift reported as best: among the candidates of the
      highest score, the lowest shift. */
  predicate IsBestShift(ciphertext: string, b: int) {
    0 <= b < 26
    && forall s :: 0 <= s < 26 ==>
      Candidates(ciphertext)[s].score < Candidates(ciphertext)[b].score
      || (Candidates(ciphertext)[s].score == Candidates(ciphertext)[b].score && b <= s)
  }

  /** The head of the score ranking is the candidate of the best shift. */
  lemma BestShift(ciphertext: string)
    ensures IsBestShift(ciphertext, ByScore(ciphertext)[0].shift)
    ensures ByScore(ciphertext)[0] == Candidates(ciphertext)[ByScore(ciphertext)[0].shift]
    ensures ByScore(ciphertext)[0].fullText == CaesarCipher(ciphertext, -ByScore(ciphertext)[0].shift)
  {
    ScoreRanking(ciphertext);
    HeadIsBest(ByScore(ciphertext), Candidates(ciphertext));
  }

  /** The head of a reordering of the candidates by ScoreBefore is the
      candidate of the lowest shift among those of the highest score. */
  lemma HeadIsBest(o: seq<Candidate>, cs: seq<Candidate>)
    requires |cs| == 26 && forall s :: 0 <= s < 26 ==> cs[s].shift == s
    requires multiset(o) == multiset(cs) && Pairwise(o, ScoreBefore)
    ensures |o| == 26 && 0 <= o[0].shift < 26 && cs[o[0].shift] == o[0]
    ensures forall s :: 0 <= s < 26 ==>
      cs[s].score < o[0].score || (cs[s].score == o[0].score && o[0].shift <= s)
  {
    assert |o| == |multiset(o)| == |multiset(cs)| == 26;
    InMultiset(o, 0);
    var b :| 0 <= b < 26 && cs[b] == o[0];
    forall s | 0 <= s < 26
      ensures cs[s].score < cs[b].score || (cs[s].score == cs[b].score && b <= s)
    {
      InMultiset(cs, s);
      var k :| 0 <= k < 26 && o[k] == cs[s];
      if k != 0 {
        assert ScoreBefore(o[0], o[k]);
      }
    }
  }

  // ----- the attack -----

  /** The characters `String.prototype.trim` removes. */
  predicate IsJsSpace(c: char)
    ensures IsJsSpace(c) ==> !IsLetter(c)
  {
    var n := c as int;
    (9 <= n <= 13) || n == 0x20 || n == 0xA0 || n == 0x1680 || (0x2000 <= n <= 0x200A)
    || n == 0x2028 || n == 0x2029 || n == 0x202F || n == 0x205F || n == 0x3000 || n == 0xFEFF
  }

  /** Whether the text is white space only. */
  predicate IsBlank(text: string) {
    forall i :: 0 <= i < |text| ==> IsJsSpace(text[i])
  }

  /** The text without its leading white space. */
  function TrimStart(s: string): (t: string)
    ensures |t| <= |s| && t == s[|s| - |t|..]
    ensures forall i :: 0 <= i < |s| - |t| ==> IsJsSpace(s[i])
    ensures t == [] || !IsJsSpace(t[0])
  {
    if s == [] || !IsJsSpace(s[0]) then s else TrimStart(s[1..])
  }

  /** The text without its trailing white space. */
  function TrimEnd(s: string): (t: string)
    ensures |t| <= |s| && t == s[..|t|]
    ensures forall i :: |t| <= i < |s| ==> IsJsSpace(s[i])
    ensures t == [] || !IsJsSpace(t[|t| - 1])
  {
    if s == [] || !IsJsSpace(s[|s| - 1]) then s else TrimEnd(s[..|s| - 1])
  }

  /** `text.trim()`. */
  function Trim(text: string): (t: string)
    ensures |t| <= |text|
    ensures t == [] || (!IsJsSpace(t[0]) && !IsJsSpace(t[|t| - 1]))
  {
    TrimEnd(TrimStart(text))
  }

  /** `!text.trim()` holds exactly for the texts made of white space only. */
  lemma TrimEmpty(text: string)
    ensures Trim(text) == [] <==> IsBlank(text)
  {
    var u := TrimStart(text);
    if Trim(text) != [] {
      var t := Trim(text);
      assert t[0] == u[0] == text[|text| - |u|];
    }
  }

  datatype Outcome =
    | Invalid(message: string)
    | Ranked(results: seq<Candidate>, chiSquaredResults: seq<Candidate>, bestShift: int, bestText: string)

  /** Decrypts with every shift, ranks the candidates by score and by
      chi-squared and reports the best shift with its decryption. */
  method BruteForceAttack(ciphertext: string) returns (outcome: Outcome)
    requires IsAsciiText(ciphertext)
    ensures outcome.Invalid? <==> IsBlank(ciphertext)
    ensures outcome.Invalid? ==> outcome.message == "Please enter valid ciphertext"
    ensures outcome.Ranked? ==> RanksAll(ciphertext, outcome)
  {
    var blank := Trim(ciphertext) == [];
    TrimEmpty(ciphertext);
    if blank {
      return Invalid("Please enter valid ciphertext");
    }
    outcome := RankAll(ciphertext);
  }

  /** What the attack reports past the blank check: the score ranking, the
      chi-squared ranking, the best shift and its full decryption. */
  predicate RanksAll(ciphertext: string, outcome: Outcome)
    requires outcome.Ranked?
  {
    outcome.results == ByScore(ciphertext) && outcome.chiSquaredResults == ByChi(ciphertext)
    && IsBestShift(ciphertext, outcome.bestShift)
    && outcome.bestText == CaesarCipher(ciphertext, -outcome.bestShift)
  }

  /** The attack past the blank check: the candidates, the two sorts and the
      head of the score ranking. */
  method RankAll(ciphertext: string) returns (outcome: Outcome)
    requires IsAsciiText(ciphertext)
    ensures outcome.Ranked? && RanksAll(ciphertext, outcome)
  {
    var results := TryAllShifts(ciphertext);
    results := SortBy(results, ScoreKey);
    var chiSquaredResults := SortBy(results, ChiKey);
    BestShift(ciphertext);
    var bestShift := results[0].shift;
    outcome := Ranked(results, chiSquaredResults, bestShift, results[0].fullText);
  }

  /** The loop over shifts 0 to 25, building the candidates in order. */
  method TryAllShifts(ciphertext: string) returns (results: seq<Candidate>)
    requires IsAsciiText(ciphertext)
    ensures results == Candidates(ciphertext)
  {
    results := [];
    for shift := 0 to 26
      invariant results == Candidates(ciphertext)[..shift]
    {
      var candidate := TryShift(ciphertext, shift);
      PrefixNext(Candidates(ciphertext), shift);
      results := results + [candidate];
    }
  }

  /** The body of the loop: one decryption and its analysis. */
  method TryShift(ciphertext: string, shift: int) returns (candidate: Candidate)
    requires IsAsciiText(ciphertext)
    ensures candidate == Analyse(ciphertext, shift)
  {
    var decrypted := DecryptWithShift(ciphertext, shift);
    CaesarKeepsAscii(ciphertext, -shift);
    var frequencies := GetFrequencies(decrypted);
    var chiSquared := CalculateChiSquared(frequencies);
    var score := ScoreEnglishText(decrypted);
    candidate := Candidate(shift, chiSquared, score, Preview(decrypted), decrypted);
  }

  /** Whatever plaintext was enciphered with shift k (0 <= k < 26), the
      candidate for shift k recovers it, so the rankings always contain it. */
  lemma AttackFindsPlaintext(plaintext: string, k: int)
    requires 0 <= k < 26
    ensures Candidates(CaesarCipher(plaintext, k))[k].fullText == plaintext
    ensures Candidates(CaesarCipher(plaintext, k))[k] in multiset(ByScore(CaesarCipher(plaintext, k)))
  {
    var ct := CaesarCipher(plaintext, k);
    CaesarUndo(plaintext, k);
    ScoreRanking(ct);
    InMultiset(Candidates(ct), k);
  }
}
