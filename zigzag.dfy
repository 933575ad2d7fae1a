/** The zig-zag that both Rail Fence screens walk, in closed form, and the
    two transpositions it defines: reading the fence rail by rail (what the
    encrypting screen returns) and its inverse (what the cracking screen
    computes for one key). */
module ZigZag {

  /** Columns after which the walk is back on the top rail. */
  function Period(rails: int): int
    requires rails >= 2
  {
    2 * (rails - 1)
  }

  /** How far column j is into the current period of the walk. */
  function Phase(j: nat, rails: int): (m: nat)
    requires rails >= 2
    ensures m < Period(rails)
  {
    if j == 0 then 0
    else if Phase(j - 1, rails) + 1 == Period(rails) then 0
    else Phase(j - 1, rails) + 1
  }

  /** The rail that column j lies on: the walk goes down from rail 0 to
      rail rails-1, then back up, bouncing at both ends. */
  function Row(j: nat, rails: int): (r: nat)
    requires rails >= 2
    ensures r < rails
    ensures r == 0 <==> Phase(j, rails) == 0
    ensures r == rails - 1 <==> Phase(j, rails) == rails - 1
  {
    var m := Phase(j, rails);
    if m < rails then m else Period(rails) - m
  }

  lemma MulAtLeast(d: int, p: int)
    requires d >= 1 && p > 0
    ensures d * p >= p
  {
  }

  /** The remainder is determined by any decomposition a == q * p + m. */
  lemma ModUnique(a: int, p: int, q: int, m: int)
    requires p > 0 && 0 <= m < p && a == q * p + m
    ensures a % p == m
  {
    var q', m' := a / p, a % p;
    assert a == q' * p + m';
    assert (q - q') * p == q * p - q' * p;
    if q > q' {
      MulAtLeast(q - q', p);
    } else if q < q' {
      MulAtLeast(q' - q, p);
    }
  }

  /** Counting one column further steps the remainder, wrapping at p. */
  lemma ModStep(i: nat, p: int)
    requires p > 0
    ensures (i + 1) % p == if i % p + 1 == p then 0 else i % p + 1
  {
    var q, m := i / p, i % p;
    if m + 1 == p {
      ModUnique(i + 1, p, q + 1, 0);
    } else {
      ModUnique(i + 1, p, q, m + 1);
    }
  }

  /** The phase is the column number modulo the period, so column j lies
      on the top rail exactly when j is a multiple of the period. */
  lemma {:induction false} PhaseIsMod(j: nat, rails: int)
    requires rails >= 2
    ensures Phase(j, rails) == j % Period(rails)
    ensures Row(j, rails) == 0 <==> j % Period(rails) == 0
  {
    if j > 0 {
      var i := j - 1;
      PhaseIsMod(i, rails);
      ModStep(i, Period(rails));
      assert Phase(i + 1, rails) == (i + 1) % Period(rails);
    }
  }

  /** How many of the columns 0..j-1 lie on rail r. */
  function CountRow(rails: int, r: int, j: nat): nat
    requires rails >= 2
  {
    if j == 0 then 0
    else CountRow(rails, r, j - 1) + (if Row(j - 1, rails) == r then 1 else 0)
  }

  /** How many of the columns 0..j-1 lie on the rails 0..k-1. */
  function Before(rails: int, k: nat, j: nat): nat
    requires rails >= 2
  {
    if k == 0 then 0 else Before(rails, k - 1, j) + CountRow(rails, k - 1, j)
  }

  /** The characters of s in columns 0..j-1 that lie on rail r, left to right. */
  function RailChars(s: string, rails: int, r: int, j: nat): (t: string)
    requires rails >= 2 && j <= |s|
    ensures |t| == CountRow(rails, r, j)
  {
    if j == 0 then []
    else RailChars(s, rails, r, j - 1) + (if Row(j - 1, rails) == r then [s[j - 1]] else [])
  }

  /** Rails 0..k-1 of the columns 0..j-1 of the fence, read rail by rail. */
  function Fence(s: string, rails: int, k: nat, j: nat): (t: string)
    requires rails >= 2 && k <= rails && j <= |s|
    ensures |t| == Before(rails, k, j)
  {
    if k == 0 then [] else Fence(s, rails, k - 1, j) + RailChars(s, rails, k - 1, j)
  }

  /** The whole fence of s read rail by rail. */
  function Encode(s: string, rails: int): (t: string)
    requires rails >= 2
    ensures |t| == |s|
  {
    BeforeAll(rails, |s|);
    Fence(s, rails, rails, |s|)
  }

  // ----- counting -----

  lemma {:induction false} CountRowMono(rails: int, r: int, j: nat, n: nat)
    requires rails >= 2 && j <= n
    ensures CountRow(rails, r, j) <= CountRow(rails, r, n)
    decreases n
  {
    if j < n {
      CountRowMono(rails, r, j, n - 1);
    }
  }

  lemma CountRowStrict(rails: int, j: nat, n: nat)
    requires rails >= 2 && j < n
    ensures CountRow(rails, Row(j, rails), j) < CountRow(rails, Row(j, rails), n)
  {
    CountRowMono(rails, Row(j, rails), j + 1, n);
  }

  lemma {:induction false} BeforeMono(rails: int, k: nat, k2: nat, n: nat)
    requires rails >= 2 && k <= k2
    ensures Before(rails, k, n) <= Before(rails, k2, n)
    decreases k2
  {
    if k < k2 {
      BeforeMono(rails, k, k2 - 1, n);
    }
  }

  lemma {:induction false} BeforeStep(rails: int, k: nat, j: nat)
    requires rails >= 2
    ensures Before(rails, k, j + 1) == Before(rails, k, j) + (if Row(j, rails) < k then 1 else 0)
  {
    if k > 0 {
      BeforeStep(rails, k - 1, j);
    }
  }

  lemma {:induction false} BeforeNone(rails: int, k: nat)
    requires rails >= 2
    ensures Before(rails, k, 0) == 0
  {
    if k > 0 {
      BeforeNone(rails, k - 1);
    }
  }

  /** Every column lies on exactly one of the rails 0..rails-1. */
  lemma {:induction false} BeforeAll(rails: int, n: nat)
    requires rails >= 2
    ensures Before(rails, rails, n) == n
  {
    if n == 0 {
      BeforeNone(rails, rails);
    } else {
      BeforeAll(rails, n - 1);
      BeforeStep(rails, rails, n - 1);
    }
  }

  /** The position in the rail-by-rail reading of the fence of the character
      in column j: after all the rails above its own, and after the columns of
      its own rail to its left. */
  function Rank(n: nat, rails: int, j: nat): (p: nat)
    requires rails >= 2 && j < n
    ensures p < n
  {
    var r := Row(j, rails);
    CountRowStrict(rails, j, n);
    BeforeMono(rails, r + 1, rails, n);
    BeforeAll(rails, n);
    Before(rails, r, n) + CountRow(rails, r, j)
  }

  /** Undoes Encode: column j of the plaintext is read from position
      Rank(j) of the ciphertext. */
  function Decode(c: string, rails: int): (t: string)
    requires rails >= 2
    ensures |t| == |c|
  {
    seq(|c|, j requires 0 <= j < |c| => c[Rank(|c|, rails, j)])
  }

  // ----- reading rails -----

  lemma {:induction false} RailCharsAt(s: string, rails: int, j: nat, n: nat)
    requires rails >= 2 && j < n <= |s|
    ensures CountRow(rails, Row(j, rails), j) < |RailChars(s, rails, Row(j, rails), n)|
    ensures RailChars(s, rails, Row(j, rails), n)[CountRow(rails, Row(j, rails), j)] == s[j]
    decreases n
  {
    CountRowStrict(rails, j, n);
    if j < n - 1 {
      RailCharsAt(s, rails, j, n - 1);
    }
  }

  /** The t-th character of rail r comes from a column of rail r with
      exactly t columns of that rail to its left. */
  lemma {:induction false} RailCharsSource(s: string, rails: int, r: int, n: nat, t: nat) returns (j: nat)
    requires rails >= 2 && n <= |s| && t < CountRow(rails, r, n)
    ensures j < n && Row(j, rails) == r && CountRow(rails, r, j) == t
    ensures RailChars(s, rails, r, n)[t] == s[j]
    decreases n
  {
    if t < CountRow(rails, r, n - 1) {
      j := RailCharsSource(s, rails, r, n - 1, t);
    } else {
      j := n - 1;
    }
  }

  /** Reading more rails only appends: what sits at position p of the
      first k rails stays there in the whole reading. */
  lemma {:induction false} FenceKeeps(s: string, rails: int, k: nat, n: nat, p: nat, c: char)
    requires rails >= 2 && k <= rails && n <= |s|
    requires p < |Fence(s, rails, k, n)| && Fence(s, rails, k, n)[p] == c
    ensures p < |Fence(s, rails, rails, n)| && Fence(s, rails, rails, n)[p] == c
    decreases rails - k
  {
    if k < rails {
      FenceKeepsStep(s, rails, k, n, p, c);
      FenceKeeps(s, rails, k + 1, n, p, c);
    }
  }

  lemma FenceKeepsStep(s: string, rails: int, k: nat, n: nat, p: nat, c: char)
    requires rails >= 2 && k < rails && n <= |s|
    requires p < |Fence(s, rails, k, n)| && Fence(s, rails, k, n)[p] == c
    ensures p < |Fence(s, rails, k + 1, n)| && Fence(s, rails, k + 1, n)[p] == c
  {
    FenceNext(s, rails, k, n);
    ConcatPrefix(Fence(s, rails, k + 1, n), Fence(s, rails, k, n), RailChars(s, rails, k, n), p);
  }

  lemma ConcatPrefix(f: string, a: string, b: string, p: nat)
    requires f == a + b && p < |a|
    ensures p < |f| && f[p] == a[p]
  {
  }

  /** Finds the rail whose block of the reading holds position p. */
  lemma {:induction false} Locate(rails: int, n: nat, p: nat, k: nat) returns (r: nat)
    requires rails >= 2 && p < Before(rails, k, n)
    ensures r < k && Before(rails, r, n) <= p < Before(rails, r, n) + CountRow(rails, r, n)
    decreases k
  {
    if p >= Before(rails, k - 1, n) {
      r := k - 1;
    } else {
      r := Locate(rails, n, p, k - 1);
    }
  }

  /** Rail r occupies the positions Before(r) .. Before(r) + CountRow(r) - 1
      of the whole reading, in its own order. */
  lemma FenceRailAt(s: string, rails: int, r: nat, n: nat, t: nat)
    requires rails >= 2 && r < rails && n <= |s| && t < CountRow(rails, r, n)
    ensures Before(rails, r, n) + t < |Fence(s, rails, rails, n)|
    ensures Fence(s, rails, rails, n)[Before(rails, r, n) + t] == RailChars(s, rails, r, n)[t]
  {
    FenceNextAt(s, rails, r, n, t);
    FenceKeeps(s, rails, r + 1, n, Before(rails, r, n) + t, RailChars(s, rails, r, n)[t]);
  }

  lemma FenceNextAt(s: string, rails: int, r: nat, n: nat, t: nat)
    requires rails >= 2 && r < rails && n <= |s| && t < CountRow(rails, r, n)
    ensures Before(rails, r, n) + t < |Fence(s, rails, r + 1, n)|
    ensures Fence(s, rails, r + 1, n)[Before(rails, r, n) + t] == RailChars(s, rails, r, n)[t]
  {
    FenceNext(s, rails, r, n);
    ConcatAt(Fence(s, rails, r + 1, n), Fence(s, rails, r, n), RailChars(s, rails, r, n), Before(rails, r, n) + t, t);
  }

  lemma FenceNext(s: string, rails: int, r: nat, n: nat)
    requires rails >= 2 && r < rails && n <= |s|
    ensures Fence(s, rails, r + 1, n) == Fence(s, rails, r, n) + RailChars(s, rails, r, n)
  {
  }

  lemma RailCharsNext(s: string, rails: int, r: int, j: nat)
    requires rails >= 2 && j < |s|
    ensures RailChars(s, rails, r, j + 1)
         == RailChars(s, rails, r, j) + (if Row(j, rails) == r then [s[j]] else [])
  {
  }

  /** Extending a prefix by one element. */
  lemma PrefixNext<T>(t: seq<T>, i: nat)
    requires i < |t|
    ensures t[..i + 1] == t[..i] + [t[i]]
  {
  }

  lemma AppendAssoc(a: string, b: string, c: string)
    ensures (a + b) + c == a + (b + c)
  {
  }

  lemma ConcatAt(f: string, a: string, b: string, p: nat, t: nat)
    requires f == a + b && t < |b| && p == |a| + t
    ensures p < |f| && f[p] == b[t]
  {
  }

  /** The character in column j ends up at position Rank(j) of the reading. */
  lemma EncodeAt(s: string, rails: int, j: nat)
    requires rails >= 2 && j < |s|
    ensures |Encode(s, rails)| == |s|
    ensures Encode(s, rails)[Rank(|s|, rails, j)] == s[j]
  {
    var n, r := |s|, Row(j, rails);
    BeforeAll(rails, n);
    RailCharsAt(s, rails, j, n);
    FenceRailAt(s, rails, r, n, CountRow(rails, r, j));
  }

  // ----- the two round trips -----

  /** Decoding the rail-by-rail reading gives back the plaintext. */
  lemma DecodeEncode(s: string, rails: int)
    requires rails >= 2
    ensures Decode(Encode(s, rails), rails) == s
  {
    var n := |s|;
    BeforeAll(rails, n);
    forall j | 0 <= j < n
      ensures Decode(Encode(s, rails), rails)[j] == s[j]
    {
      EncodeAt(s, rails, j);
    }
  }

  /** Position p of the reading of a decoded text is position p of the
      ciphertext. */
  lemma EncodeDecodeAt(c: string, rails: int, p: nat)
    requires rails >= 2 && p < |c|
    ensures |Encode(Decode(c, rails), rails)| == |c|
    ensures Encode(Decode(c, rails), rails)[p] == c[p]
  {
    var n, d := |c|, Decode(c, rails);
    BeforeAll(rails, n);
    var r := Locate(rails, n, p, rails);
    var t := p - Before(rails, r, n);
    var j := RailCharsSource(d, rails, r, n, t);
    FenceRailAt(d, rails, r, n, t);
    assert Rank(n, rails, j) == p;
  }

  /** Reading the fence of a decoded text gives back the ciphertext. */
  lemma EncodeDecode(c: string, rails: int)
    requires rails >= 2
    ensures Encode(Decode(c, rails), rails) == c
  {
    BeforeAll(rails, |c|);
    forall p | 0 <= p < |c|
      ensures Encode(Decode(c, rails), rails)[p] == c[p]
    {
      EncodeDecodeAt(c, rails, p);
    }
  }

  // ----- permutation -----

  /** The character of column j when b holds, else nothing. */
  function Extra(s: string, j: nat, b: bool): multiset<char>
    requires j < |s|
  {
    if b then multiset{s[j]} else multiset{}
  }
  lemma RailCharsGrows(s: string, rails: int, r: int, j: nat)
    requires rails >= 2 && 0 < j <= |s|
    ensures multiset(RailChars(s, rails, r, j))
         == multiset(RailChars(s, rails, r, j - 1)) + Extra(s, j - 1, Row(j - 1, rails) == r)
  {
    if Row(j - 1, rails) == r {
      assert RailChars(s, rails, r, j) == RailChars(s, rails, r, j - 1) + [s[j - 1]];
    } else {
      assert RailChars(s, rails, r, j) == RailChars(s, rails, r, j - 1) + [];
    }
  }
  lemma ConcatGrows(f: string, f0: string, a: string, b: string, a0: string, b0: string,
                     x: multiset<char>, y: multiset<char>, z: multiset<char>)
    requires f == a + b && f0 == a0 + b0 && x + y == z
    requires multiset(a) == multiset(a0) + x && multiset(b) == multiset(b0) + y
    ensures multiset(f) == multiset(f0) + z
  {
    calc {
      multiset(f);
      multiset(a) + multiset(b);
      multiset(a0) + multiset(b0) + (x + y);
      multiset(f0) + z;
    }
  }
  lemma ExtraSplit(s: string, j: nat, r: int, k: int)
    requires j < |s|
    ensures Extra(s, j, r < k - 1) + Extra(s, j, r == k - 1) == Extra(s, j, r < k)
  {
    if r < k - 1 {
      assert Extra(s, j, r == k - 1) == multiset{};
    } else if r == k - 1 {
      assert Extra(s, j, r < k - 1) == multiset{};
    }
  }
  /** Adding column j-1 to the first k rails of the fence adds its character
      exactly when that column lies on one of those rails. */
  lemma {:induction false} FenceGrows(s: string, rails: int, k: nat, j: nat)
    requires rails >= 2 && k <= rails && 0 < j <= |s|
    ensures multiset(Fence(s, rails, k, j))
         == multiset(Fence(s, rails, k, j - 1)) + Extra(s, j - 1, Row(j - 1, rails) < k)
  {
    if k == 0 {
      FenceNoRails(s, rails, j);
    } else {
      var k' := k - 1;
      FenceGrows(s, rails, k', j);
      FenceGrowsStep(s, rails, k' + 1, j);
    }
  }

  lemma FenceNoRails(s: string, rails: int, j: nat)
    requires rails >= 2 && 0 < j <= |s|
    ensures multiset(Fence(s, rails, 0, j))
         == multiset(Fence(s, rails, 0, j - 1)) + Extra(s, j - 1, Row(j - 1, rails) < 0)
  {
    assert Fence(s, rails, 0, j) == Fence(s, rails, 0, j - 1) == [];
  }

  lemma FenceGrowsStep(s: string, rails: int, k: nat, j: nat)
    requires rails >= 2 && 0 < k <= rails && 0 < j <= |s|
    requires multiset(Fence(s, rails, k - 1, j))
          == multiset(Fence(s, rails, k - 1, j - 1)) + Extra(s, j - 1, Row(j - 1, rails) < k - 1)
    ensures multiset(Fence(s, rails, k, j))
         == multiset(Fence(s, rails, k, j - 1)) + Extra(s, j - 1, Row(j - 1, rails) < k)
  {
    var r := Row(j - 1, rails);
    RailCharsGrows(s, rails, k - 1, j);
    ExtraSplit(s, j - 1, r, k);
    ConcatGrows(Fence(s, rails, k, j), Fence(s, rails, k, j - 1),
                Fence(s, rails, k - 1, j), RailChars(s, rails, k - 1, j),
                Fence(s, rails, k - 1, j - 1), RailChars(s, rails, k - 1, j - 1),
                Extra(s, j - 1, r < k - 1), Extra(s, j - 1, r == k - 1), Extra(s, j - 1, r < k));
  }

  lemma AppendOne(f1: string, f0: string, p1: string, p0: string, x: char)
    requires multiset(f1) == multiset(f0) + multiset{x}
    requires multiset(f0) == multiset(p0) && p1 == p0 + [x]
    ensures multiset(f1) == multiset(p1)
  {
  }

  lemma ExtraTrue(s: string, j: nat, b: bool)
    requires j < |s| && b
    ensures Extra(s, j, b) == multiset{s[j]}
  {
  }

  lemma FenceNoColumns(s: string, rails: int)
    requires rails >= 2
    ensures multiset(Fence(s, rails, rails, 0)) == multiset(s[..0])
  {
    BeforeNone(rails, rails);
    assert |Fence(s, rails, rails, 0)| == 0;
  }
  lemma FenceGrowsAll(s: string, rails: int, j: nat)
    requires rails >= 2 && 0 < j <= |s|
    ensures multiset(Fence(s, rails, rails, j)) == multiset(Fence(s, rails, rails, j - 1)) + multiset{s[j - 1]}
  {
    FenceGrows(s, rails, rails, j);
    ExtraTrue(s, j - 1, Row(j - 1, rails) < rails);
  }

  lemma {:induction false} FenceMultiset(s: string, rails: int, j: nat)
    requires rails >= 2 && j <= |s|
    ensures multiset(Fence(s, rails, rails, j)) == multiset(s[..j])
  {
    if j == 0 {
      FenceNoColumns(s, rails);
    } else {
      FenceMultiset(s, rails, j - 1);
      FenceMultisetStep(s, rails, j);
    }
  }

  lemma FenceMultisetStep(s: string, rails: int, j: nat)
    requires rails >= 2 && 0 < j <= |s|
    requires multiset(Fence(s, rails, rails, j - 1)) == multiset(s[..j - 1])
    ensures multiset(Fence(s, rails, rails, j)) == multiset(s[..j])
  {
    FenceGrowsAll(s, rails, j);
    AppendOne(Fence(s, rails, rails, j), Fence(s, rails, rails, j - 1), s[..j], s[..j - 1], s[j - 1]);
  }

  /** The rail-by-rail reading is a permutation of the plaintext. */
  lemma EncodePermutes(s: string, rails: int)
    requires rails >= 2
    ensures multiset(Encode(s, rails)) == multiset(s)
  {
    FenceMultiset(s, rails, |s|);
    assert s[..|s|] == s;
  }

  /** Decoding is a permutation of the ciphertext. */
  lemma DecodePermutes(c: string, rails: int)
    requires rails >= 2
    ensures multiset(Decode(c, rails)) == multiset(c)
  {
    EncodeDecode(c, rails);
    EncodePermutes(Decode(c, rails), rails);
  }

  // ----- the top rail -----

  lemma {:induction false} CountTopBlock(rails: int, t: nat, d: nat)
    requires rails >= 2 && 0 < d <= Period(rails)
    ensures CountRow(rails, 0, t * Period(rails) + d) == CountRow(rails, 0, t * Period(rails)) + 1
  {
    var p := Period(rails);
    if d == 1 {
      ModUnique(t * p, p, t, 0);
      PhaseIsMod(t * p, rails);
    } else {
      CountTopBlock(rails, t, d - 1);
      ModUnique(t * p + d - 1, p, t, d - 1);
      PhaseIsMod(t * p + d - 1, rails);
    }
  }

  lemma MulSucc(t: int, p: int)
    ensures (t - 1) * p + p == t * p
  {
  }

  /** Exactly t of the columns before t * Period lie on the top rail. */
  lemma {:induction false} CountTop(rails: int, t: nat)
    requires rails >= 2
    ensures CountRow(rails, 0, t * Period(rails)) == t
  {
    if t > 0 {
      var p := Period(rails);
      CountTop(rails, t - 1);
      CountTopBlock(rails, t - 1, p);
      MulSucc(t, p);
    }
  }

  /** The reading starts with the top rail: the columns 0, Period, 2 * Period, ... */
  lemma TopRail(s: string, rails: int, t: nat)
    requires rails >= 2 && t * Period(rails) < |s|
    ensures t < |Encode(s, rails)| && Encode(s, rails)[t] == s[t * Period(rails)]
  {
    var j := t * Period(rails);
    ModUnique(j, Period(rails), t, 0);
    PhaseIsMod(j, rails);
    CountTop(rails, t);
    assert Rank(|s|, rails, j) == t;
    EncodeAt(s, rails, j);
  }

  /** The first character is never moved. */
  lemma EncodeKeepsFirst(s: string, rails: int)
    requires rails >= 2 && |s| > 0
    ensures |Encode(s, rails)| == |s|
    ensures Encode(s, rails)[0] == s[0] && Decode(s, rails)[0] == s[0]
  {
    BeforeAll(rails, |s|);
    TopRail(s, rails, 0);
    BeforeNone(rails, |s|);
    assert Rank(|s|, rails, 0) == 0;
  }
}
