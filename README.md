# Classical ciphers and their crackers, in Dafny

This project models the cipher core of a small mobile app for classical ciphers,
and proves properties of that model.

The main screen enciphers text three ways:
- Caesar: rotate every ASCII letter by a shift, keeping its case.
- Vigenère: rotate the j-th letter by the j-th key letter, cycling the key.
- Rail Fence: write the text in a zig-zag over a number of rails, then read the rails one after another.

Two cracker screens undo this:
- The Caesar cracker decrypts with all 26 shifts. For each shift it computes:
  - the letter frequencies of the decryption;
  - their chi-squared distance from an English frequency table;
  - a score that counts common English fragments, plus a bonus for a plausible share of spaces.

  It then ranks the 26 candidates two ways: by score, and by chi-squared. The best shift is the head of the score ranking.
- The Rail Fence cracker decrypts with every rail count from 2 up to min(length/2, 10).

Modules:
- `Ascii` (`ascii.dfy`): letter classes, case mapping, JavaScript's truncating `%`, and rotation in a 26-letter alphabet.
- `ZigZag` (`zigzag.dfy`): the zig-zag in closed form, with specifications of the rail reading (`Encode`) and of its inverse (`Decode`). It proves the two round trips and that both are permutations.
- `MainScreen` (`main_screen.dfy`): the three ciphers.
  - `CaesarCipher` is a function, because the source is a `map` over the characters.
  - `VigenereCipher` is a loop that builds the result.
  - `RailFenceCipher` fills and reads a `key × n` grid of strings (`array2<string>`), as the source does.
- `CCrack` (`ccrack.dfy`): the Caesar cracker.
  - Each helper is a method with a loop, proved against a specification function.
  - Ranking is a stable sort written as functions.
  - `BruteForceAttack` ties the candidates, both rankings and the best shift to that specification.
- `RCrack` (`rcrack.dfy`): the Rail Fence cracker. It works in three passes over a grid: mark the zig-zag, fill the marked cells rail by rail, and read the zig-zag back. Then comes the loop over rail counts.

JavaScript numbers are modelled as Dafny `int` where the code only uses integers, and as `real` for frequencies and chi-squared. Comparisons of a `real` with a constant, such as `spaceRatio > 0.1` or `key <= Math.min(n / 2, 10)`, are kept on reals. Lemmas prove what those comparisons mean in integer terms.

Two behaviours of the code are worth stating plainly:
- The Caesar cracker rejects only input that `trim()` reduces to nothing (`CCrack.js:182-186`). Input that is not blank but has no letters is still ranked; its frequency table is empty.
- The rail fence cipher returns the text unchanged when the rail count is at most 1 or at least the text length (`MainScreen.js:91`). It never reports an invalid key.

The English frequency table (`CCrack.js:23-50`) adds up to 0.9999, not 1. Every frequency table of a text adds up to 1, or to 0 when the text has no letters. So in the model, over exact reals, no text ever gets a chi-squared of exactly 0 (`CCrack.ChiSquaredPositive`).

## Model

| member | source | states |
|---|---|---|
| Ascii.TruncRem | MainScreen.js:71 | JavaScript `%` for a positive divisor: the remainder lies strictly between -b and b and has the dividend's sign |
| Ascii.LetterCases | MainScreen.js:35 | what `/[a-z]/i` accepts is ASCII and of exactly one case, and it is exactly the characters that upper-case to a capital |
| Ascii.Upper | MainScreen.js:66-67 | `toUpperCase` on one ASCII character: a letter becomes a capital, capitals and non-letters are unchanged, and ASCII stays ASCII |
| Ascii.Lower | MainScreen.js:75 | `toLowerCase` on one ASCII character: a letter becomes lower case, lower-case letters and non-letters are unchanged, and ASCII stays ASCII |
| Ascii.Rotate | MainScreen.js:40-46 | a letter stays in its case and moves k places modulo 26 along its alphabet; any other character is unchanged |
| Ascii.RotateTwice | MainScreen.js:40-46 | rotating by a and then by b is one rotation by (a + b) mod 26 |
| MainScreen.NormShift | MainScreen.js:29-30 | the shift after `% 26` and the fix-up for a negative shift lies in 0..25 and equals the shift modulo 26 |
| MainScreen.CaesarCipher | MainScreen.js:28-53 | the result has the input's length |
| MainScreen.CaesarShape | MainScreen.js:34-51 | a non-letter is copied; a letter keeps its case; upper and lower case letters move (code + shift) mod 26 in their alphabet, for a shift of either sign |
| MainScreen.CaesarPeriodic | MainScreen.js:29 | shifts that differ by 26 encipher alike |
| MainScreen.CaesarIdentity | MainScreen.js:29-30 | a shift that is a multiple of 26 leaves every text unchanged |
| MainScreen.CaesarCompose | MainScreen.js:28-53 | enciphering with a and then with b is enciphering with a + b |
| MainScreen.CaesarInverse | MainScreen.js:28-53 | enciphering with k and with -k undo each other, in both orders |
| MainScreen.LetterCount | MainScreen.js:61-79 | the value of `keyIndex` after a prefix, the number of its letters, is at most the prefix length |
| MainScreen.LetterCountExtremes | MainScreen.js:61-79 | a text of letters only advances the key index once per character, and a text without letters never advances it |
| MainScreen.ToUpper | MainScreen.js:59 | `key.toUpperCase()` keeps the length and upper-cases each character |
| MainScreen.VigenereCipher | MainScreen.js:56-86 | the loop computes `Vigenere(s, key)`; an empty key returns the text unchanged |
| MainScreen.Vigenere | MainScreen.js:63-83 | the result has the input's length |
| MainScreen.VigenereLetter | MainScreen.js:66-76 | when the code sum is non-negative the result is a letter of the input letter's case; when a non-letter key character makes it negative the result is one of '(' to 'A' (or its lower-case form) |
| MainScreen.VigenereShape | MainScreen.js:63-83 | with a key of letters: non-letters are copied, letters keep their case, and the i-th character, if it is the j-th letter, is rotated by key letter j mod \|key\| minus 'A' |
| MainScreen.VigenereLetterRotates | MainScreen.js:66-76 | for a letter key character the code sum, truncated remainder and re-casing are a rotation by the key letter's alphabet index |
| MainScreen.KeyCode | MainScreen.js:68-69 | the key code read for the j-th letter lies in -65..62 for any ASCII key, so the remainder and `fromCharCode` stay in range |
| MainScreen.VigenereOneLetter | MainScreen.js:56-86 | a one-letter key enciphers exactly as the Caesar cipher with that letter's alphabet index |
| MainScreen.Bounce | MainScreen.js:105-112 | the direction fix-up at rails 0 and rails-1 followed by `rail += direction` lands on the zig-zag row of the next column |
| MainScreen.DrawFence | MainScreen.js:94-113 | after the walk, every column's character sits on its zig-zag row and every other cell is blank |
| MainScreen.ReadFence | MainScreen.js:116-123 | reading the non-blank cells rail by rail gives `Encode(s, rails)` |
| MainScreen.RailFenceCipher | MainScreen.js:89-126 | rails <= 1 or rails >= \|s\| returns s; otherwise the result is the rail reading `Encode(s, rails)`; either way the result is a permutation of s |
| ZigZag.Row | MainScreen.js:98-112 | the zig-zag row of a column is below rails, and is 0 or rails-1 exactly at the turning phases |
| ZigZag.Encode | MainScreen.js:116-123 | the rail reading has the text's length |
| ZigZag.Decode | RCrack.js:41-51 | reading column j from the rank of j has the ciphertext's length |
| ZigZag.PhaseIsMod | MainScreen.js:98-112 | the zig-zag repeats with period 2·(rails-1); column j is on the top rail exactly when j is a multiple of the period |
| ZigZag.Rank | RCrack.js:32-39 | the position in the ciphertext of column j's character is below the length |
| ZigZag.EncodeAt | MainScreen.js:116-123 | the rail reading places column j's character at that column's rank |
| ZigZag.DecodeEncode | RCrack.js:19-52 | decoding the rail reading of s returns s |
| ZigZag.EncodeDecode | RCrack.js:19-52 | the rail reading of a decoded text is the ciphertext |
| ZigZag.EncodePermutes | MainScreen.js:116-123 | the rail reading is a permutation of the text |
| ZigZag.DecodePermutes | RCrack.js:41-51 | decoding is a permutation of the ciphertext |
| ZigZag.TopRail | MainScreen.js:117-123 | for p the period and every t with t·p inside the text, the t-th character of the rail reading is the character at position t·p: the top rail, read first, holds the multiples of the period |
| ZigZag.EncodeKeepsFirst | RCrack.js:19-52 | the first character is kept by both the reading and its inverse |
| RCrack.Flip | RCrack.js:27-29 | flipping `dirDown` at rail 0 and rail key-1 and then stepping lands on the zig-zag row of the next column |
| RCrack.MarkRails | RCrack.js:21-30 | after the first pass the zig-zag cells hold "*" and all others are blank |
| RCrack.FillRail | RCrack.js:34-38 | on rail i each marked cell receives the ciphertext character of its rank, and index moves past rail i's cells |
| RCrack.FillRails | RCrack.js:32-39 | after the fill pass every zig-zag cell holds the ciphertext character of its rank |
| RCrack.ReadRails | RCrack.js:41-51 | the third pass reads `Decode(text, key)` |
| RCrack.DecryptRailFence | RCrack.js:19-52 | the result is `Decode(text, key)`, its rail reading is the ciphertext again, it is a permutation of the ciphertext, and it keeps the first character |
| RCrack.TriedRange | RCrack.js:58 | the real comparison key <= min(n / 2, 10) holds exactly for keys 2..10 with 2·key <= n |
| RCrack.Min | RCrack.js:58 | `Math.min` is at most both arguments and equal to one of them |
| RCrack.Tried | RCrack.js:58 | a key that passes the loop guard lies in 2..10 and is at most half the length |
| RCrack.Attempts | RCrack.js:57-60 | the attempts have keys 2, 3, ... in order, each one tried, and every tried key has an attempt |
| RCrack.BruteForceDecrypt | RCrack.js:57-60 | the loop yields exactly `Attempts(ciphertext)` |
| RCrack.AttemptsAreCandidates | RCrack.js:57-60 | every attempt's text enciphers back to the ciphertext with its key |
| RCrack.AttemptsFind | RCrack.js:57-60 | a plaintext enciphered with any tried key is the attempt for that key |
| CCrack.DecryptCode | CCrack.js:70 | `(charCode - shift % 26 + 26) % 26` has a positive dividend and equals rotation by -shift modulo 26 |
| CCrack.DecryptWithShift | CCrack.js:53-84 | the loop returns the Caesar encipherment with -shift; enciphering it with shift gives the text back; it is the only such preimage |
| CCrack.DecryptionInverts | CCrack.js:53-84 | deciphering inverts enciphering, and the preimage under a shift is unique |
| CCrack.CaesarKeepsAscii | CCrack.js:53-84 | the Caesar cipher maps ASCII text to ASCII text |
| CCrack.Clean | CCrack.js:88 | the cleaned text has one character per letter of the input, all capitals |
| CCrack.CleanCounts | CCrack.js:88 | each capital occurs in the cleaned text as often as its letter occurs in the text, upper and lower case together |
| CCrack.Frequencies | CCrack.js:87-105 | the table is empty exactly when the text has no letters, and every key is a capital |
| CCrack.CountLetters | CCrack.js:94-97 | the first loop computes the count of every character of the cleaned text |
| CCrack.GetFrequencies | CCrack.js:87-105 | the loops compute `Frequencies(text)`: empty when there are no letters, otherwise count over total per letter |
| CCrack.Normalise | CCrack.js:100-102 | dividing every entry in place yields the map of entries over the total |
| CCrack.FrequenciesBounds | CCrack.js:94-102 | every entry lies in (0, 1] |
| CCrack.FrequencyOf | CCrack.js:94-102 | the `\|\| 0` lookup of a capital c is the number of occurrences of c and of its lower-case form in the text over the letter count; any other character reads 0 |
| CCrack.FrequenciesSumToOne | CCrack.js:87-105 | with at least one letter, the 26 entries sum to exactly 1 |
| CCrack.EnglishFrequency | CCrack.js:23-50 | every entry of the English table lies between 0 and 0.1202, the frequency of E |
| CCrack.EnglishTableComplete | CCrack.js:23-50 | the English table has a positive entry exactly for the 26 capitals |
| CCrack.Deviation | CCrack.js:117 | each term `(observed - expected)^2 / expected` is non-negative |
| CCrack.Letter | CCrack.js:112 | `String.fromCharCode(65 + i)` is a capital whose alphabet index is i |
| CCrack.Lookup | CCrack.js:113-114 | a non-zero read comes from a stored entry, and for a table of positive entries the read is positive exactly for the stored keys |
| CCrack.ChiTerm | CCrack.js:112-118 | the term of letter i, `(observed - expected)^2 / expected` or nothing when the expected frequency is not positive, is non-negative |
| CCrack.ChiSum | CCrack.js:108-122 | the sum over the first k letters is non-negative |
| CCrack.CalculateChiSquared | CCrack.js:108-122 | the loop computes the chi-squared sum over the 26 letters, and it is non-negative |
| CCrack.ChiTermZero | CCrack.js:112-118 | a letter's term is zero exactly when its observed frequency equals the English one |
| CCrack.ChiSumZero | CCrack.js:111-119 | the sum over the first k letters is zero exactly when each of its terms is |
| CCrack.ChiSquaredZero | CCrack.js:108-122 | chi-squared is zero exactly when the observed frequencies equal the English table on all 26 letters |
| CCrack.EnglishTotal | CCrack.js:23-50 | the 26 entries of the English table add up to 0.9999 |
| CCrack.EnglishLike | CCrack.js:108-122 | a table that agrees with English on the first k letters has the same sum over them |
| CCrack.ChiSquaredPositive | CCrack.js:108-122 | the chi-squared of every text's frequency table is strictly positive |
| CCrack.MatchesAreOccurrences | CCrack.js:155-156 | for a pattern that cannot overlap itself, the number of greedy `g` matches equals the number of positions where the pattern occurs |
| CCrack.CommonPatternsOverlapFree | CCrack.js:127-148 | none of the 20 fragments is empty or overlaps itself |
| CCrack.ToLower | CCrack.js:150 | lower-casing keeps the length |
| CCrack.PatternScore | CCrack.js:154-160 | the match counts of the first k fragments add up to at most k times the text length |
| CCrack.Matches | CCrack.js:155-156 | greedy `g` matches from position i never overlap: their number times the pattern length fits in what is left of the text |
| CCrack.ScoreEnglishText | CCrack.js:125-173 | the loop computes `Score(text)`, which is non-negative |
| CCrack.Score | CCrack.js:125-173 | the score is non-negative, and at least 10 when the space ratio earns the bonus |
| CCrack.PatternScoreCountsOccurrences | CCrack.js:154-160 | the pattern part of the score counts every occurrence of every fragment |
| CCrack.ScoreMeaning | CCrack.js:125-173 | the score is the fragment-occurrence count plus 10 exactly when 10·spaces > length and 4·spaces < length |
| CCrack.SpaceBonusExact | CCrack.js:163-170 | the real-ratio test 0.1 < spaces / length < 0.25 on non-empty text is 10·spaces > length and 4·spaces < length |
| CCrack.SpaceCountMeaning | CCrack.js:163 | `(text.match(/ /g) \|\| []).length` is the number of spaces |
| CCrack.SpaceCount | CCrack.js:163 | the space count is at most the text length |
| CCrack.SpaceBonus | CCrack.js:164-170 | the bonus needs at least one space and at least one other character |
| CCrack.Preview | CCrack.js:201-203 | texts up to 100 characters are shown whole, longer ones as their first 100 characters followed by "..." |
| CCrack.Analyse | CCrack.js:192-205 | the candidate for a shift records that shift and the decryption with it |
| CCrack.Candidates | CCrack.js:191-206 | there are 26 candidates, the one at index s for shift s |
| CCrack.TryShift | CCrack.js:192-205 | the loop body builds the candidate `Analyse(ciphertext, shift)` |
| CCrack.TryAllShifts | CCrack.js:188-206 | the loop builds the 26 candidates in order of shift |
| CCrack.Insert | CCrack.js:209 | inserting one candidate into the sorted prefix adds exactly that candidate |
| CCrack.SortBy | CCrack.js:209 | sorting keeps the length and only reorders, for either key |
| CCrack.ScoreComparator | CCrack.js:209 | the sign of `b.score - a.score` is the order of the sort key ScoreKey on a and b |
| CCrack.ChiComparator | CCrack.js:212-214 | the sign of `a.chiSquared - b.chiSquared` is the order of the sort key ChiKey on a and b |
| CCrack.ByScore | CCrack.js:209 | the score ranking holds exactly the 26 candidates |
| CCrack.ByChi | CCrack.js:212-214 | the chi-squared ranking holds exactly the candidates of the score ranking |
| CCrack.SortOrdered | CCrack.js:212-214 | sorting a sequence whose pairs are all in a given order yields one sorted by key with ties in that order: the sort is stable |
| CCrack.ScoreRanking | CCrack.js:209 | the score ranking holds the 26 candidates by descending score, with equal scores by ascending shift |
| CCrack.ChiRanking | CCrack.js:212-214 | the chi-squared ranking holds the same candidates by ascending chi-squared, with ties in score-ranking order |
| CCrack.BestShift | CCrack.js:243 | the head of the score ranking is the candidate of the lowest shift among those of the highest score, and its full text is the decryption with that shift |
| CCrack.HeadIsBest | CCrack.js:243 | the head of any reordering of the candidates by descending score and ascending shift is the candidate of the lowest shift among those of the highest score |
| CCrack.TrimStart | CCrack.js:182 | the result is a suffix of the text, everything dropped is white space, and it does not start with white space |
| CCrack.TrimEnd | CCrack.js:182 | the result is a prefix of the text, everything dropped is white space, and it does not end with white space |
| CCrack.Trim | CCrack.js:182 | `trim()` is never longer than the text, and what it leaves neither starts nor ends with white space |
| CCrack.IsJsSpace | CCrack.js:182 | the white space `trim()` removes holds no letter |
| CCrack.TrimEmpty | CCrack.js:182 | `!text.trim()` holds exactly when every character of the text is white space |
| CCrack.BruteForceAttack | CCrack.js:182-214 | blank input yields "Please enter valid ciphertext"; otherwise both rankings, the best shift with its highest-score/lowest-shift property, and its full decryption |
| CCrack.RankAll | CCrack.js:188-214 | past the blank check the outcome is ranked and satisfies RanksAll: the score ranking, the chi-squared ranking, the best shift with its highest-score/lowest-shift property and its full decryption |
| CCrack.AttackFindsPlaintext | CCrack.js:188-209 | for a text enciphered with shift k in 0..25, the candidate for k is the plaintext, and it is in the ranking |

## Left out

- VCrack.js (the Vigenère cracker) and App.js (navigation) are not part of this model.
- React state, rendering, `setTimeout`, `setIsLoading` and the `try`/`catch` around the attack are left out. The model covers only what the handlers compute.
- The text rendered for the results (`toFixed(2)`, the top-5 and top-3 listings, `CCrack.js:217-244`) is left out. The rankings and the best shift it is built from are modelled.
- The `useKey` path of the Caesar cracker screen and its `parseInt` of the key are left out. Shifts are taken as integers, so the `null`, `undefined` and `NaN` guards of `decryptWithShift` (`CCrack.js:54`, `CCrack.js:58`) have no counterpart.
- `parseInt` in `caesarCipher` and `railFenceCipher` is left out. The shift and rail count are already integers.
- JavaScript numbers are doubles, so a shift beyond 2^53 is rounded before `% 26` (`MainScreen.js:29`, `CCrack.js:57`). `NormShift` and `DecryptWithShift` work on the exact integer; shifts beyond 2^53 are outside the model.
- Floating point is left out: frequencies, chi-squared and the space ratio are exact reals. Rounding, and therefore rankings that hinge on rounding, are not modelled.
- `Array.prototype.sort` is a library call. It is modelled as a stable insertion sort, since the language requires a stable sort.
- JavaScript strings are sequences of UTF-16 code units, and a character outside the Basic Multilingual Plane is two of them. A Dafny `char` is a Unicode scalar value, so a lone surrogate code unit (0xD800 to 0xDFFF) is not a `char`. Strings that hold surrogate pairs are outside the model: `split("")`, `str[i]` and `.length` see two code units where the model has one character.
- The scope is ASCII:
  - `GetFrequencies`, `ScoreEnglishText` and `BruteForceAttack` require ASCII text.
  - `VigenereCipher` requires an ASCII key.
  - The reason is that `toUpperCase` and `toLowerCase` on other characters (for example 'ß' to "SS") can change the length, and that is not modelled.
- MainScreen.VigenereShape: the rotation form is stated for keys made of letters only. For other ASCII keys the model follows the code's arithmetic (`VigenereLetter`) without a rotation lemma.
- RCrack.DecryptRailFence: requires key >= 2. Its only caller passes 2..10. With key 1 and a text of two or more characters, the JavaScript walk steps onto row 1, which does not exist, and throws.
- The grid cells of both rail fence routines keep the source's strings: "" for blank, "*" for a mark, a one-character string for a character of the text. The marker is not replaced by an option type.
