/** Fixed-width machine arithmetic: octets, 32-bit words, the truncation of a
    wide counter to a word, and the conversions of bitmanip.h.

    The C operators are wrapped in functions so that a proof about a long chain of
    them can use the cancellation laws below instead of the bits. */
module Words {
  import Bytes


  type octet = bv8
  type word = bv32

  const W32: int := 0x1_0000_0000
  const W64: int := 0x1_0000_0000_0000_0000

  function Add(a: word, b: word): word {
    a + b
  }

  function Sub(a: word, b: word): word {
    a - b
  }

  function Xor(a: word, b: word): word {
    a ^ b
  }

  function Xor8(a: octet, b: octet): octet {
    a ^ b
  }

  /** rol(w, n) of bitmanip.h. */
  function Rol(w: word, n: word): word
    requires 0 < n < 32
  {
    (w << n) | (w >> (32 - n))
  }

  lemma AddCancel(a: word, b: word)
    ensures Sub(Add(a, b), b) == a
    ensures Add(Sub(a, b), b) == a
  {
    assert Sub(a + b, b) == a;
    assert Add(a - b, b) == a;
  }

  lemma AddAssociative(a: word, b: word, c: word)
    ensures Add(Add(a, b), c) == Add(a, Add(b, c))
  {
    assert Add(a + b, c) == Add(a, b + c);
  }

  lemma AddCommutes(a: word, b: word)
    ensures Add(a, b) == Add(b, a)
  {
  }

  lemma XorCancel(a: word, b: word)
    ensures Xor(Xor(a, b), b) == a
    ensures Xor(b, Xor(b, a)) == a
  {
  }

  /** Rotating left by n and then by 32 - n is the identity. */
  lemma RolCancel(w: word, n: word)
    requires 0 < n < 32
    ensures Rol(Rol(w, n), 32 - n) == w
  {
    assert Rol((w << n) | (w >> (32 - n)), 32 - n) == w;
  }

  // ---- truncation ---------------------------------------------------------

  /** The conversion of an unsigned integer of any width to uint32_t. */
  function Low(n: nat): word {
    if n == 0 then 0 else Shift(Low(n / 2), n % 2 == 1)
  }

  /** Append one binary digit, dropping the leading one. */
  function Shift(w: word, odd: bool): word {
    w + w + (if odd then 1 else 0)
  }

  lemma ShiftInc(w: word)
    ensures Shift(w, true) == Add(Shift(w, false), 1)
    ensures Shift(Add(w, 1), false) == Add(Shift(w, true), 1)
  {
    assert Add(w, 1) == w + 1;
    assert Shift(w, false) == w + w;
    assert Shift(w, true) == w + w + 1;
    assert Add(w + w, 1) == w + w + 1;
    assert Shift(w + 1, false) == w + w + 2;
    assert Add(w + w + 1, 1) == w + w + 2;
  }

  /** Truncation takes the successor to the wrapping successor. */
  lemma {:induction false} LowInc(n: nat)
    ensures Low(n + 1) == Add(Low(n), 1)
  {
    ShiftInc(Low(n / 2));
    if n % 2 == 0 {
      assert (n + 1) / 2 == n / 2;
    } else {
      assert (n + 1) / 2 == n / 2 + 1;
      LowInc(n / 2);
    }
  }

  lemma AddZero(a: word)
    ensures Add(a, 0) == a
  {
  }

  /** Truncation is a homomorphism from + to the wrapping addition. */
  lemma {:induction false} LowAdd(m: nat, n: nat)
    ensures Low(m + n) == Add(Low(m), Low(n))
    decreases n
  {
    if n == 0 {
      AddZero(Low(m));
    } else {
      LowAdd(m, n - 1);
      LowInc(m + (n - 1));
      LowInc(n - 1);
      AddAssociative(Low(m), Low(n - 1), 1);
    }
  }

  function WordPow2(k: nat): word {
    if k == 0 then 1 else Shift(WordPow2(k - 1), false)
  }

  lemma LowDouble(n: nat, w: word)
    requires Low(n) == w
    ensures Low(2 * n) == Shift(w, false)
  {
  }

  lemma LowOne()
    ensures Low(1) == 1
  {
    assert Low(0) == 0;
    assert Shift(0, true) == 1;
  }

  lemma {:induction false} LowPow2(k: nat)
    ensures Low(Bytes.Pow2(k)) == WordPow2(k)
  {
    if k == 0 {
      LowOne();
    } else {
      LowPow2(k - 1);
      LowDouble(Bytes.Pow2(k - 1), WordPow2(k - 1));
    }
  }

  lemma PowerValues()
    ensures WordPow2(31) == 0x8000_0000 && WordPow2(32) == 0
    ensures Bytes.Pow2(31) == 0x8000_0000 && Bytes.Pow2(32) == W32
  {
    assert WordPow2(4) == 0x10 && Bytes.Pow2(4) == 0x10;
    assert WordPow2(8) == 0x100 && Bytes.Pow2(8) == 0x100;
    assert WordPow2(12) == 0x1000 && Bytes.Pow2(12) == 0x1000;
    assert WordPow2(16) == 0x1_0000 && Bytes.Pow2(16) == 0x1_0000;
    assert WordPow2(20) == 0x10_0000 && Bytes.Pow2(20) == 0x10_0000;
    assert WordPow2(24) == 0x100_0000 && Bytes.Pow2(24) == 0x100_0000;
    assert WordPow2(28) == 0x1000_0000 && Bytes.Pow2(28) == 0x1000_0000;
  }

  lemma {:induction false} LowMultiple(n: nat)
    ensures Low(W32 * n) == 0
  {
    if n == 0 {
    } else {
      LowMultiple(n - 1);
      PowerValues();
      LowPow2(32);
      LowAdd(W32 * (n - 1), W32);
    }
  }

  lemma LowMod(n: nat)
    ensures Low(n % W32) == Low(n)
  {
    LowMultiple(n / W32);
    LowAdd(n % W32, W32 * (n / W32));
    AddZero(Low(n % W32));
  }

  lemma LowOfOddTop(t: nat, m: nat)
    requires t == 31 && m % 2 == 1
    ensures Low(Bytes.Pow2(t) * m) != 0
  {
    var p := Bytes.Pow2(t);
    PowerValues();
    LowPow2(t);
    LowMultiple(m / 2);
    LowAdd(W32 * (m / 2), p);
    AddCommutes(0, WordPow2(t));
    AddZero(WordPow2(t));
    assert p * m == W32 * (m / 2) + p;
  }

  lemma {:induction false} LowOfOddMultiple(t: nat, m: nat)
    requires t <= 31 && m % 2 == 1
    ensures Low(Bytes.Pow2(t) * m) != 0
    decreases 31 - t
  {
    if t == 31 {
      LowOfOddTop(t, m);
    } else {
      LowOfOddMultiple(t + 1, m);
      var n := Bytes.Pow2(t) * m;
      assert Bytes.Pow2(t + 1) * m == 2 * n;
      LowDouble(n, Low(n));
      assert Shift(0, false) == 0;
    }
  }

  lemma HalveFactor(n: nat, t: nat)
    requires n % 2 == 0
    ensures Bytes.Pow2(t) * n == Bytes.Pow2(t + 1) * (n / 2)
  {
    var h := n / 2;
    assert Bytes.Pow2(t) * (2 * h) == (2 * Bytes.Pow2(t)) * h;
  }

  lemma {:induction false} LowOfSmall(d: nat, n: nat, t: nat)
    requires d == Bytes.Pow2(t) * n && 0 < d < W32 && t <= 31
    ensures Low(d) != 0
    decreases 31 - t
  {
    if n % 2 == 1 {
      LowOfOddMultiple(t, n);
    } else {
      HalveFactor(n, t);
      if t == 31 {
        PowerValues();
        assert false;
      }
      LowOfSmall(d, n / 2, t + 1);
    }
  }

  lemma LowOfDifference(m: nat, n: nat)
    requires m <= n && Low(m) == Low(n)
    ensures Low(n - m) == 0
  {
    LowAdd(m, n - m);
    AddCommutes(Low(m), Low(n - m));
    AddCancel(Low(n - m), Low(m));
    AddCommutes(0, Low(m));
    AddZero(Low(m));
    AddCancel(0, Low(m));
  }

  lemma LowOfRemainder(r: nat)
    requires 0 < r < W32
    ensures Low(r) != 0
  {
    assert r == Bytes.Pow2(0) * r;
    LowOfSmall(r, r, 0);
  }

  /** Truncation forgets nothing but multiples of 2^32. */
  lemma LowInjective(m: nat, n: nat)
    requires m <= n && Low(m) == Low(n)
    ensures (n - m) % W32 == 0
  {
    var d := n - m;
    LowOfDifference(m, n);
    LowMod(d);
    var r := d % W32;
    if r != 0 {
      LowOfRemainder(r);
    }
  }

  // ---- little-endian octets -----------------------------------------------

  /** Up to four octets as a little-endian word, missing octets being zero
      (LEUCHAR2HEUINT32 and LEUCHAR2HEUINT32ZE). */
  function FromLE(s: seq<octet>): word
    requires |s| <= 4
  {
    (if |s| > 0 then s[0] as word else 0) | ((if |s| > 1 then s[1] as word else 0) << 8)
    | ((if |s| > 2 then s[2] as word else 0) << 16) | ((if |s| > 3 then s[3] as word else 0) << 24)
  }

  /** A word as four little-endian octets (HEUINT32TOLEUCHAR). */
  function ToLE(w: word): (s: seq<octet>)
    ensures |s| == 4
  {
    [(w & 0xff) as octet, ((w >> 8) & 0xff) as octet, ((w >> 16) & 0xff) as octet, (w >> 24) as octet]
  }

  lemma FromToLE(w: word)
    ensures FromLE(ToLE(w)) == w
  {
  }

  /** A short little-endian word, read with zero extension, keeps its octets. */
  lemma ToFromLE(s: seq<octet>)
    requires |s| <= 4
    ensures ToLE(FromLE(s))[..|s|] == s
  {
  }

  /** Octet-by-octet exclusive or (LEUCHARXORHEUINT32 and LEUCHARXORHEUINT32P). */
  function XorOctets(a: seq<octet>, b: seq<octet>): (c: seq<octet>)
    requires |a| <= |b|
    ensures |c| == |a|
  {
    seq(|a|, i requires 0 <= i < |a| => Xor8(a[i], b[i]))
  }

  lemma XorOctetsCancel(a: seq<octet>, b: seq<octet>)
    requires |a| <= |b|
    ensures XorOctets(XorOctets(a, b), b) == a
  {
    forall i | 0 <= i < |a| ensures XorOctets(XorOctets(a, b), b)[i] == a[i] {
      assert Xor8(Xor8(a[i], b[i]), b[i]) == a[i];
    }
  }

  lemma XorOfWordsAt(a: word, b: word)
    ensures ToLE(a ^ b)[0] == Xor8(ToLE(a)[0], ToLE(b)[0])
    ensures ToLE(a ^ b)[1] == Xor8(ToLE(a)[1], ToLE(b)[1])
    ensures ToLE(a ^ b)[2] == Xor8(ToLE(a)[2], ToLE(b)[2])
    ensures ToLE(a ^ b)[3] == Xor8(ToLE(a)[3], ToLE(b)[3])
  {
  }

  /** The octets of a word xor are the xors of the octets. */
  lemma XorOfWords(a: word, b: word)
    ensures ToLE(Xor(a, b)) == XorOctets(ToLE(a), ToLE(b))
  {
    assert Xor(a, b) == a ^ b;
    var s, t, u := ToLE(a ^ b), ToLE(a), ToLE(b);
    XorOfWordsAt(a, b);
    var c := XorOctets(t, u);
    assert c[0] == s[0] && c[1] == s[1] && c[2] == s[2] && c[3] == s[3];
    assert c == s;
  }
}
