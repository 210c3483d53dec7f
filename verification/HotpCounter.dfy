/** The event counter of an HOTP card (cardops/hotp.c, hotp_challenge): what "the next
    challenge" is, and over which windows it really is "plus one". */
module HotpCounter {
  import opened Bytes

  function Hi(c: uint64): uint32 {
    c / TWO32
  }

  function Lo(c: uint64): uint32 {
    c % TWO32
  }

  /** The upper half that a low word with bit 31 set forces: the word is assembled in a signed
      int, and its sign fills the upper half of the counter. */
  function SignFilled(c: uint64): uint64 {
    if Lo(c) < TWO31 then c else (TWO32 - 1) * TWO32 + Lo(c)
  }

  /** hotp_challenge as a function on counters. */
  function Next(c: uint64): uint64 {
    ToU64(SignFilled(c) + 1)
  }

  /** The counter n challenges on. */
  function Ahead(c: uint64, n: nat): uint64 {
    if n == 0 then c else Next(Ahead(c, n - 1))
  }

  /** The counter tried at window position e. */
  function At(base: uint64, e: nat): uint64 {
    Ahead(base, e + 1)
  }

  lemma {:induction false} AheadTwice(c: uint64, m: nat, n: nat)
    ensures Ahead(Ahead(c, m), n) == Ahead(c, m + n)
  {
    if n == 0 {
    } else {
      AheadTwice(c, m, n - 1);
    }
  }

  /** A step is the successor exactly when bit 31 is clear or the upper half is all ones. */
  lemma NextIsSuccessor(c: uint64)
    ensures Next(c) == ToU64(c + 1) <==> Lo(c) < TWO31 || Hi(c) == TWO32 - 1
  {
    assert c == Hi(c) * TWO32 + Lo(c);
    var d := SignFilled(c);
    if d != c {
      assert 0 < d - c < TWO64;
    }
  }

  /** A step goes up exactly when the low word is not all ones; from there it wraps to zero. */
  lemma NextGoesUp(c: uint64)
    ensures Next(c) > c <==> Lo(c) != TWO32 - 1
    ensures Lo(c) == TWO32 - 1 ==> Next(c) == 0
    ensures Lo(c) != TWO32 - 1 ==> Lo(Next(c)) == Lo(c) + 1 && Hi(Next(c)) == if Lo(c) < TWO31 then Hi(c) else 0xffff_ffff
  {
    assert c == Hi(c) * TWO32 + Lo(c);
    if Lo(c) != TWO32 - 1 {
      var n := Next(c);
      assert n == SignFilled(c) + 1;
      var h := n - (Lo(c) + 1);
      assert h == Hi(c) * TWO32 || h == (TWO32 - 1) * TWO32;
    }
  }

  lemma {:induction false} AheadGoesUp(c: uint64, n: nat)
    requires Lo(c) + n < TWO32
    ensures Lo(Ahead(c, n)) == Lo(c) + n
    ensures n > 0 ==> Ahead(c, n) > Ahead(c, n - 1) >= c
  {
    if n == 0 {
    } else {
      AheadGoesUp(c, n - 1);
      NextGoesUp(Ahead(c, n - 1));
    }
  }

  /** Past an all-ones low word the counter has started again from zero. */
  lemma {:induction false} AheadWraps(c: uint64, n: nat)
    requires Lo(c) + n >= TWO32 && n <= TWO31
    ensures Ahead(c, n) == Lo(c) + n - TWO32 < c
  {
    if Lo(c) + n == TWO32 {
      AheadGoesUp(c, n - 1);
      NextGoesUp(Ahead(c, n - 1));
    } else {
      AheadWraps(c, n - 1);
      NextIsSuccessor(Ahead(c, n - 1));
    }
    assert c == Hi(c) * TWO32 + Lo(c);
  }

  /** A window ascends from its base exactly when the low word cannot reach all ones inside
      it; otherwise one of its positions is at counter zero. */
  lemma WindowAscends(base: uint64, eend: nat)
    ensures (forall e: nat | e <= eend :: At(base, e) > base) <==> Lo(base) + eend + 1 < TWO32
  {
    if Lo(base) + eend + 1 < TWO32 {
      forall e: nat | e <= eend ensures At(base, e) > base {
        AheadGoesUp(base, e + 1);
      }
    } else {
      var e := TWO32 - 1 - Lo(base);
      AheadGoesUp(base, e);
      NextGoesUp(Ahead(base, e));
      assert At(base, e) == 0;
    }
  }

  lemma {:induction false} AheadIsPlus(c: uint64, n: nat)
    requires n == 0 || (if Hi(c) == TWO32 - 1 then Lo(c) + n < TWO32 else Lo(c) + n <= TWO31)
    ensures Ahead(c, n) == c + n
  {
    if n == 0 {
    } else {
      AheadIsPlus(c, n - 1);
      HalvesOfSum(c, n - 1);
      StepIsPlus(c + (n - 1));
    }
  }

  /** A sum that stays within the low word. */
  lemma HalvesOfSum(c: uint64, k: nat)
    requires Lo(c) + k < TWO32
    ensures c + k < TWO64 && Hi(c + k) == Hi(c) && Lo(c + k) == Lo(c) + k
  {
    assert c + k == Hi(c) * TWO32 + (Lo(c) + k);
  }

  lemma StepIsPlus(d: uint64)
    requires Lo(d) < TWO31 || (Hi(d) == TWO32 - 1 && Lo(d) < TWO32 - 1)
    ensures Next(d) == d + 1
  {
    NextIsSuccessor(d);
    assert d == Hi(d) * TWO32 + Lo(d);
  }

  /** The condition under which position e is counter base + 1 + e throughout a window. */
  predicate PlainWindow(base: uint64, eend: nat) {
    if Hi(base) == TWO32 - 1 then Lo(base) + eend + 1 < TWO32 else Lo(base) + eend < TWO31
  }

  lemma WindowIsPlus(base: uint64, eend: nat)
    ensures (forall e: nat | e <= eend :: At(base, e) == base + 1 + e) <==> PlainWindow(base, eend)
  {
    if PlainWindow(base, eend) {
      forall e: nat | e <= eend ensures At(base, e) == base + 1 + e {
        AheadIsPlus(base, e + 1);
      }
    } else {
      var e := NotPlus(base, eend);
    }
  }

  /** The first position where a window is not plain. */
  lemma NotPlus(base: uint64, eend: nat) returns (e: nat)
    requires !PlainWindow(base, eend)
    ensures e <= eend && At(base, e) != base + 1 + e
  {
    assert base == Hi(base) * TWO32 + Lo(base);
    if Hi(base) == TWO32 - 1 {
      e := TWO32 - 1 - Lo(base);
      AheadIsPlus(base, e);
      assert base + e == TWO64 - 1;
    } else {
      e := if Lo(base) < TWO31 then TWO31 - Lo(base) else 0;
      AheadIsPlus(base, e);
      var d := base + e;
      assert d == Hi(base) * TWO32 + (Lo(base) + e);
      assert Hi(d) == Hi(base) && Lo(d) == Lo(base) + e;
      NextIsSuccessor(d);
      assert d + 1 < TWO64;
    }
  }
}
