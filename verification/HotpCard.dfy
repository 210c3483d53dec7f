/** The card operations of cardops/hotp.c on a challenge buffer and a token state. */
module HotpCard {
  import opened Bytes
  import opened TokenState
  import opened HexText
  import Counter = HotpCounter

  const CHALLENGE_LEN := 8

  /** The part of user_t that an HOTP card uses. hotp is the HOTP value of RFC 4226 under the
      user's key, as a function of the counter. */
  datatype User = User(username: string, rwindow: uint32, digits: nat, pin: string, hotp: uint64 -> string)

  function Value(challenge: seq<uchar>): uint64
    requires |challenge| == CHALLENGE_LEN
  {
    ToFromBE(challenge);
    Pow256Values();
    FromBE(challenge)
  }

  function Challenge(counter: uint64): (c: seq<uchar>)
    ensures |c| == CHALLENGE_LEN
    ensures Value(c) == counter
  {
    Pow256Values();
    FromToBE(counter, CHALLENGE_LEN);
    ToBE(counter, CHALLENGE_LEN)
  }

  lemma ChallengeOfValue(c: seq<uchar>)
    requires |c| == CHALLENGE_LEN
    ensures Challenge(Value(c)) == c
  {
    ToFromBE(c);
  }

  /** hotp_challenge: the next challenge, in place. */
  method NextChallenge(state: State, challenge: array<uchar>)
    requires challenge.Length >= CHALLENGE_LEN
    modifies challenge, state`clen
    ensures challenge[..CHALLENGE_LEN] == Challenge(Counter.Next(old(Value(challenge[..CHALLENGE_LEN]))))
    ensures state.clen == CHALLENGE_LEN
  {
    NextOfOctets(challenge[..CHALLENGE_LEN]);
    var counter := ToU64(SignedWord(challenge[0], challenge[1], challenge[2], challenge[3]));
    counter := ToU64(counter * TWO32);
    counter := OrSigned(counter, SignedWord(challenge[4], challenge[5], challenge[6], challenge[7]));
    counter := ToU64(counter + 1);
    StoreCounter(counter, challenge);
    state.clen := 8;
  }

  lemma NextOfOctets(s: seq<uchar>)
    requires |s| == CHALLENGE_LEN
    ensures var upper := ToU64(ToU64(SignedWord(s[0], s[1], s[2], s[3])) * TWO32);
      upper % TWO32 == 0 &&
      ToU64(OrSigned(upper, SignedWord(s[4], s[5], s[6], s[7])) + 1) == Counter.Next(Value(s))
  {
    SignedHalves(s);
    NextOfWords(Value(s), SignedWord(s[0], s[1], s[2], s[3]), SignedWord(s[4], s[5], s[6], s[7]));
  }

  lemma NextOfWords(c: uint64, a: int, b: int)
    requires a == ToI32(Counter.Hi(c)) && b == ToI32(Counter.Lo(c)) && -TWO31 <= b < TWO31
    ensures var upper := ToU64(ToU64(a) * TWO32);
      upper % TWO32 == 0 && ToU64(OrSigned(upper, b) + 1) == Counter.Next(c)
  {
    Assembled(c);
  }

  /** The two signed words are the halves of the counter. */
  lemma SignedHalves(s: seq<uchar>)
    requires |s| == CHALLENGE_LEN
    ensures SignedWord(s[0], s[1], s[2], s[3]) == ToI32(Counter.Hi(Value(s)))
    ensures SignedWord(s[4], s[5], s[6], s[7]) == ToI32(Counter.Lo(Value(s)))
  {
    SplitValue(s);
  }

  /** Four octets shifted together in a signed int. */
  function SignedWord(a: uchar, b: uchar, c: uchar, d: uchar): (w: int)
    ensures -TWO31 <= w < TWO31
  {
    ToI32(0x100_0000 * (a as int) + 0x1_0000 * (b as int) + 0x100 * (c as int) + d as int)
  }

  lemma Assembled(c: uint64)
    ensures var upper := ToU64(ToU64(ToI32(Counter.Hi(c))) * TWO32);
      upper % TWO32 == 0 && OrSigned(upper, ToI32(Counter.Lo(c))) == Counter.SignFilled(c)
  {
    assert c == Counter.Hi(c) * TWO32 + Counter.Lo(c);
    ShiftedHigh(Counter.Hi(c));
  }

  /** The sign extension of the upper word is shifted out. */
  lemma ShiftedHigh(hi: uint32)
    ensures ToU64(ToU64(ToI32(hi)) * TWO32) == hi * TWO32
  {
    if hi >= TWO31 {
      var k := TWO64 + hi - TWO32;
      assert ToU64(ToI32(hi)) == k;
      assert k * TWO32 == hi * TWO32 + TWO64 * (TWO32 - 1);
      assert (hi * TWO32 + TWO64 * (TWO32 - 1)) % TWO64 == hi * TWO32;
    }
  }

  lemma SplitValue(s: seq<uchar>)
    requires |s| == CHALLENGE_LEN
    ensures Counter.Hi(Value(s)) == 0x100_0000 * (s[0] as int) + 0x1_0000 * (s[1] as int) + 0x100 * (s[2] as int) + s[3] as int
    ensures Counter.Lo(Value(s)) == 0x100_0000 * (s[4] as int) + 0x1_0000 * (s[5] as int) + 0x100 * (s[6] as int) + s[7] as int
  {
    var a, b := s[..4], s[4..];
    FromBEConcat(a, b);
    assert s == a + b;
    Pow256Values();
    FromBE4(a);
    FromBE4(b);
    ToFromBE(a);
    ToFromBE(b);
    assert FromBE(s) == FromBE(a) * TWO32 + FromBE(b);
  }

  /** counter |= lo, where the low half of counter is zero and lo is a signed int: a negative
      lo is sign-extended over the upper half first. */
  function OrSigned(counter: uint64, lo: int): uint64
    requires counter % TWO32 == 0 && -TWO31 <= lo < TWO31
  {
    if lo < 0 then TWO64 + lo else counter + lo
  }

  /** Store a counter in network order, one octet at a time. */
  method StoreCounter(counter: uint64, challenge: array<uchar>)
    requires challenge.Length >= CHALLENGE_LEN
    modifies challenge
    ensures challenge[..CHALLENGE_LEN] == Challenge(counter)
    ensures forall i | CHALLENGE_LEN <= i < challenge.Length :: challenge[i] == old(challenge[i])
  {
    var c, i := counter, CHALLENGE_LEN;
    while i > 0
      invariant 0 <= i <= CHALLENGE_LEN
      invariant ToBE(counter, CHALLENGE_LEN) == ToBE(c, i) + challenge[i..CHALLENGE_LEN]
      invariant forall j | CHALLENGE_LEN <= j < challenge.Length :: challenge[j] == old(challenge[j])
    {
      i := i - 1;
      challenge[i] := c % 0x100;
      c := c / 0x100;
    }
  }

  /** hotp_response: only 6 to 9 digits are supported. */
  function Response(user: User, counter: uint64): Option<string> {
    if 6 <= user.digits <= 9 then Some(user.hotp(counter)) else None
  }

  /** The text hotp_updatecsd leaves in rd. */
  function ResyncData(position: nat, success: bool): string {
    if success then "" else Print(position)
  }

  method UpdateCsd(state: State, position: nat, success: bool)
    modifies state`rd
    ensures state.rd == ResyncData(position, success)
  {
    state.rd := if success then "" else Print(position);
  }

  /** hotp_isconsecutive, on the stored text. */
  predicate IsConsecutive(rd: string, position: int) {
    rd != "" && Scan(rd).Some? && position == ToI32(Scan(rd).value) + 1
  }

  /** The text written for one position is recognized at the next position and nowhere else. */
  lemma ConsecutiveAfter(recorded: nat, position: nat)
    requires recorded < TWO31
    ensures IsConsecutive(ResyncData(recorded, false), position) <==> position == recorded + 1
    ensures !IsConsecutive(ResyncData(recorded, true), position)
  {
    ScanPrint(recorded);
  }
}
