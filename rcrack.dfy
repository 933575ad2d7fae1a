/** The Rail Fence cracker: decryption for one key by marking the zig-zag,
    filling the marked cells rail by rail from the ciphertext and reading
    the zig-zag back, and the attempt at every key the screen tries. */
module RCrack {
  import opened ZigZag

  // ----- the walk with a boolean direction -----

  /** What dirDown holds before the walk handles column i: whether the last
      step went down, which is whether the phase of column i lies strictly
      inside the descent (false at the start). */
  predicate Going(i: nat, key: int, dirDown: bool)
    requires key >= 2
  {
    dirDown == (0 < Phase(i, key) < key)
  }

  /** One step of the walk: flipping the direction on rail 0 and on rail
      key-1 and then moving by it lands on the rail of the next column. */
  lemma Flip(i: nat, key: int, dirDown: bool, turned: bool)
    requires key >= 2 && Going(i, key, dirDown)
    requires turned == (if Row(i, key) == 0 || Row(i, key) == key - 1 then !dirDown else dirDown)
    ensures Row(i, key) + (if turned then 1 else -1) == Row(i + 1, key)
    ensures Going(i + 1, key, turned)
  {
    assert Phase(i + 1, key) == if Phase(i, key) + 1 == Period(key) then 0 else Phase(i, key) + 1;
  }

  // ----- the three passes over the grid -----

  /** After the walk has visited columns 0..i-1: their cells carry the
      marker "*", all others are blank. */
  predicate Marked(rail: array2<string>, key: int, n: nat, i: nat)
    requires key >= 2
    reads rail
  {
    rail.Length0 == key && rail.Length1 == n
    && forall q, c :: 0 <= q < key && 0 <= c < n ==>
      rail[q, c] == (if c < i && Row(c, key) == q then "*" else "")
  }

  /** Whether the fill pass has already passed cell (q, c) when it is at
      cell (i, j). */
  predicate Passed(q: int, c: int, i: int, j: int) {
    q < i || (q == i && c < j)
  }

  /** During the fill pass at cell (i, j): every zig-zag cell passed holds
      the ciphertext character of its rank, every other zig-zag cell still
      the marker, every cell off the zig-zag is blank. */
  predicate Filled(rail: array2<string>, text: string, key: int, i: int, j: int)
    requires key >= 2
    reads rail
  {
    rail.Length0 == key && rail.Length1 == |text|
    && forall q, c :: 0 <= q < key && 0 <= c < |text| ==>
      rail[q, c] == (if Row(c, key) != q then ""
                     else if Passed(q, c, i, j) then [text[Rank(|text|, key, c)]]
                     else "*")
  }

  /** The first pass: a key x n grid of blanks with a marker on the rail of
      every column. */
  method MarkRails(key: int, n: nat) returns (rail: array2<string>)
    requires key >= 2
    ensures fresh(rail) && Marked(rail, key, n, n)
  {
    rail := new string[key, n]((_, _) => "");
    var dirDown, row, col := false, 0, 0;
    var i := 0;
    while i < n
      invariant 0 <= i <= n && col == i
      invariant row == Row(i, key) && Going(i, key, dirDown)
      invariant Marked(rail, key, n, i)
    {
      var wasDown := dirDown;
      if row == 0 || row == key - 1 {
        dirDown := !dirDown;
      }
      Flip(i, key, wasDown, dirDown);
      rail[row, col] := "*";
      col := col + 1;
      row := row + (if dirDown then 1 else -1);
      i := i + 1;
    }
  }

  /** The second pass: rail by rail, left to right, each marked cell takes
      the next ciphertext character. */
  method FillRails(rail: array2<string>, text: string, key: int)
    requires key >= 2 && Marked(rail, key, |text|, |text|)
    modifies rail
    ensures Filled(rail, text, key, key, 0)
  {
    var n := |text|;
    var index := 0;
    var i := 0;
    while i < key
      invariant 0 <= i <= key
      invariant index == Before(key, i, n)
      invariant Filled(rail, text, key, i, 0)
    {
      index := FillRail(rail, text, key, i, index);
      i := i + 1;
    }
  }

  /** The inner loop of the second pass, on rail i: index starts at the
      number of zig-zag cells on the rails above and ends past rail i's. */
  method FillRail(rail: array2<string>, text: string, key: int, i: int, index0: int) returns (index: int)
    requires key >= 2 && 0 <= i < key
    requires Filled(rail, text, key, i, 0) && index0 == Before(key, i, |text|)
    modifies rail
    ensures Filled(rail, text, key, i + 1, 0) && index == Before(key, i + 1, |text|)
  {
    var n := |text|;
    index := index0;
    var j := 0;
    while j < n
      invariant 0 <= j <= n
      invariant index == Before(key, i, n) + CountRow(key, i, j)
      invariant Filled(rail, text, key, i, j)
    {
      assert CountRow(key, i, j + 1) == CountRow(key, i, j) + (if Row(j, key) == i then 1 else 0);
      if Row(j, key) == i {
        assert index == Rank(n, key, j);
      }
      if rail[i, j] == "*" && index < n {
        rail[i, j] := [text[index]];
        index := index + 1;
      }
      j := j + 1;
    }
  }

  /** The third pass: the walk again, collecting the cell of every column. */
  method ReadRails(rail: array2<string>, text: string, key: int) returns (result: string)
    requires key >= 2 && Filled(rail, text, key, key, 0)
    ensures result == Decode(text, key)
  {
    var n := |text|;
    result := "";
    var dirDown, row, col := false, 0, 0;
    var i := 0;
    while i < n
      invariant 0 <= i <= n && col == i
      invariant row == Row(i, key) && Going(i, key, dirDown)
      invariant result == Decode(text, key)[..i]
    {
      var wasDown := dirDown;
      if row == 0 || row == key - 1 {
        dirDown := !dirDown;
      }
      Flip(i, key, wasDown, dirDown);
      assert rail[row, col] == [Decode(text, key)[i]];
      result := result + rail[row, col];
      col := col + 1;
      row := row + (if dirDown then 1 else -1);
      i := i + 1;
    }
  }

  /** Decryption with one key: the plaintext whose rail-by-rail reading is
      the ciphertext. */
  method DecryptRailFence(text: string, key: int) returns (result: string)
    requires key >= 2
    ensures result == Decode(text, key)
    ensures Encode(result, key) == text
    ensures multiset(result) == multiset(text)
    ensures |text| > 0 ==> result[0] == text[0]
  {
    var rail := MarkRails(key, |text|);
    FillRails(rail, text, key);
    result := ReadRails(rail, text, key);
    EncodeDecode(text, key);
    DecodePermutes(text, key);
    if |text| > 0 {
      DecodeKeepsFirst(text, key);
    }
  }

  lemma DecodeKeepsFirst(c: string, key: int)
    requires key >= 2 && |c| > 0
    ensures Decode(c, key)[0] == c[0]
  {
    EncodeKeepsFirst(c, key);
  }

  // ----- trying every key -----

  datatype Attempt = Attempt(key: int, text: string)

  /** `Math.min` on two reals. */
  function Min(a: real, b: real): (m: real)
    ensures m <= a && m <= b && (m == a || m == b)
  {
    if a <= b then a else b
  }

  /** Whether the cracker tries key on a ciphertext of the given length: the
      loop runs while key <= min(length / 2, 10), a comparison on reals. */
  predicate Tried(len: nat, key: int)
    ensures Tried(len, key) ==> 2 <= key <= 10 && 2 * key <= len
  {
    2 <= key && key as real <= Min(len as real / 2.0, 10.0)
  }

  /** The keys tried are 2..10 that are at most half the length. */
  lemma TriedRange(len: nat)
    ensures forall key :: Tried(len, key) <==> 2 <= key <= 10 && 2 * key <= len
  {
    forall key
      ensures Tried(len, key) <==> 2 <= key <= 10 && 2 * key <= len
    {
      assert key as real <= len as real / 2.0 <==> 2 * key <= len;
    }
  }

  /** The attempts of the cracker: one per key from 2 up to the last key
      tried, in that order, each with the decryption under its key. */
  function Attempts(ct: string): (a: seq<Attempt>)
    ensures forall i :: 0 <= i < |a| ==> a[i].key == i + 2 && Tried(|ct|, i + 2)
    ensures forall k :: Tried(|ct|, k) ==> k - 2 < |a|
  {
    TriedRange(|ct|);
    var count := if |ct| / 2 < 10 then |ct| / 2 - 1 else 9;
    if count <= 0 then []
    else seq(count, i requires 0 <= i < count => Attempt(i + 2, Decode(ct, i + 2)))
  }

  /** The loop of bruteForceDecrypt. */
  method BruteForceDecrypt(ciphertext: string) returns (possibleResults: seq<Attempt>)
    ensures possibleResults == Attempts(ciphertext)
  {
    possibleResults := [];
    var key := 2;
    while key as real <= Min(|ciphertext| as real / 2.0, 10.0)
      invariant 2 <= key <= 11
      invariant key - 2 <= |Attempts(ciphertext)|
      invariant possibleResults == Attempts(ciphertext)[..key - 2]
      decreases 11 - key
    {
      assert Tried(|ciphertext|, key);
      var text := DecryptRailFence(ciphertext, key);
      possibleResults := possibleResults + [Attempt(key, text)];
      key := key + 1;
    }
  }

  /** Every attempt is a genuine preimage: enciphering its text with its key
      gives the ciphertext back. */
  lemma AttemptsAreCandidates(ct: string, i: nat)
    requires i < |Attempts(ct)|
    ensures Attempts(ct)[i].key >= 2
    ensures Encode(Attempts(ct)[i].text, Attempts(ct)[i].key) == ct
  {
    EncodeDecode(ct, i + 2);
  }

  /** The cracker finds any plaintext enciphered with a key it tries: the
      attempt for that key is the plaintext. */
  lemma AttemptsFind(p: string, k: int)
    requires Tried(|p|, k)
    ensures k - 2 < |Attempts(Encode(p, k))|
    ensures Attempts(Encode(p, k))[k - 2] == Attempt(k, p)
  {
    DecodeEncode(p, k);
  }
}
