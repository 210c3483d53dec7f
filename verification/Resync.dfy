/** resynctool.c: find an event counter from two consecutive passcodes and print the state line
    that goes with it. */
module Resync {
  import opened Bytes
  import opened TokenState
  import opened HotpCard
  import opened Verify
  import opened VerifyRuns
  import opened Recovery
  import opened StateText
  import HexText
  import Counter = HotpCounter

  type Hotp = uint64 -> string

  /** The last counter. The search looks up counters below it, so each of them has a next. */
  const TOP: int := TWO64 - 1

  // ---- which counters the loop looks at -----------------------------------

  /** How many counters just before c, from initial on, give the first passcode. */
  function HitsBefore(hotp: Hotp, pass1: string, initial: uint64, c: uint64): nat
    requires initial <= c
    decreases c - initial
  {
    if c == initial || hotp(c - 1) != pass1 then 0 else 1 + HitsBefore(hotp, pass1, initial, c - 1)
  }

  predicate Pair(hotp: Hotp, pass1: string, pass2: string, c: uint64) {
    c < TOP && hotp(c) == pass1 && hotp(c + 1) == pass2
  }

  /** A hit that the loop compares with the first passcode, not with the second: the counter
      after a hit is skipped, so an even number of hits must come before. */
  predicate Heads(hotp: Hotp, pass1: string, initial: uint64, c: uint64)
    requires initial <= c
  {
    HitsBefore(hotp, pass1, initial, c) % 2 == 0
  }

  ghost predicate Seen(hotp: Hotp, pass1: string, pass2: string, initial: uint64, final: uint64, c: uint64) {
    initial <= c < final && Pair(hotp, pass1, pass2, c) && Heads(hotp, pass1, initial, c)
  }

  // ---- the search ---------------------------------------------------------

  /** Store a counter as a challenge, one shift for each octet. */
  method CounterToChallenge(counter: uint64, challenge: array<uchar>)
    requires challenge.Length == CHALLENGE_LEN
    modifies challenge
    ensures challenge[..] == Challenge(counter)
  {
    challenge[0] := counter / 0x100_0000_0000_0000 % 0x100;
    challenge[1] := counter / 0x1_0000_0000_0000 % 0x100;
    challenge[2] := counter / 0x100_0000_0000 % 0x100;
    challenge[3] := counter / 0x1_0000_0000 % 0x100;
    challenge[4] := counter / 0x100_0000 % 0x100;
    challenge[5] := counter / 0x1_0000 % 0x100;
    challenge[6] := counter / 0x100 % 0x100;
    challenge[7] := counter % 0x100;
    OctetsOf(counter);
  }

  lemma OctetsOf(counter: uint64)
    ensures var c := Challenge(counter);
      && c[0] == counter / 0x100_0000_0000_0000 % 0x100 && c[1] == counter / 0x1_0000_0000_0000 % 0x100
      && c[2] == counter / 0x100_0000_0000 % 0x100 && c[3] == counter / 0x1_0000_0000 % 0x100
      && c[4] == counter / 0x100_0000 % 0x100 && c[5] == counter / 0x1_0000 % 0x100
      && c[6] == counter / 0x100 % 0x100 && c[7] == counter % 0x100
  {
    var c, upper := Challenge(counter), counter / TWO32;
    LowOctets(counter, 8);
    LowOctets(upper, 4);
    assert c[..4] == ToBE(upper, 4);
    assert c[0] == c[..4][0] && c[1] == c[..4][1] && c[2] == c[..4][2] && c[3] == c[..4][3];
    UpperShifts(counter);
  }

  lemma UpperShifts(n: nat)
    ensures n / TWO32 / 0x100 == n / 0x100_0000_0000
    ensures n / TWO32 / 0x1_0000 == n / 0x1_0000_0000_0000
    ensures n / TWO32 / 0x100_0000 == n / 0x100_0000_0000_0000
  {
  }

  /** The last four octets, and those before them. */
  lemma LowOctets(n: nat, len: nat)
    requires len >= 4
    ensures var c := ToBE(n, len);
      && c[..len - 4] == ToBE(n / TWO32, len - 4)
      && c[len - 4] == n / 0x100_0000 % 0x100 && c[len - 3] == n / 0x1_0000 % 0x100
      && c[len - 2] == n / 0x100 % 0x100 && c[len - 1] == n % 0x100
  {
    var n1, n2, n3 := n / 0x100, n / 0x1_0000, n / 0x100_0000;
    assert n1 / 0x100 == n2 && n2 / 0x100 == n3 && n3 / 0x100 == n / TWO32;
    assert ToBE(n, len) == ToBE(n1, len - 1) + [n % 0x100];
    assert ToBE(n1, len - 1) == ToBE(n2, len - 2) + [n1 % 0x100];
    assert ToBE(n2, len - 2) == ToBE(n3, len - 3) + [n2 % 0x100];
    assert ToBE(n3, len - 3) == ToBE(n / TWO32, len - 4) + [n3 % 0x100];
  }

  /** The passcode of a counter, through its challenge. */
  method Passcode(hotp: Hotp, counter: uint64, challenge: array<uchar>) returns (response: string)
    requires challenge.Length == CHALLENGE_LEN
    modifies challenge
    ensures challenge[..] == Challenge(counter) && response == hotp(counter)
  {
    CounterToChallenge(counter, challenge);
    response := hotp(Value(challenge[..]));
  }

  /** No pair is seen, and the last counter is that after a hit: the next one is zero, and the
      loop starts again from there. */
  ghost predicate Wraps(hotp: Hotp, pass1: string, pass2: string, initial: uint64, final: uint64) {
    && initial < final == TOP && hotp(TOP - 1) == pass1 && Heads(hotp, pass1, initial, TOP - 1)
    && forall c :: !Seen(hotp, pass1, pass2, initial, final, c)
  }

  /** at is where the first pair that is seen from initial ends. */
  ghost predicate FirstSeen(hotp: Hotp, pass1: string, pass2: string, initial: uint64, final: uint64, at: uint64) {
    && at > 0 && Seen(hotp, pass1, pass2, initial, final, at - 1)
    && forall c | initial <= c < at - 1 :: !Seen(hotp, pass1, pass2, initial, final, c)
  }

  /** The loop is at counter and has seen no pair. */
  ghost predicate Passed(hotp: Hotp, pass1: string, pass2: string, initial: uint64, final: uint64, counter: uint64) {
    && initial <= counter && Heads(hotp, pass1, initial, counter)
    && forall c | initial <= c < counter :: !Seen(hotp, pass1, pass2, initial, final, c)
  }

  lemma PassMiss(hotp: Hotp, pass1: string, pass2: string, initial: uint64, final: uint64, counter: uint64)
    requires Passed(hotp, pass1, pass2, initial, final, counter) && counter < final && hotp(counter) != pass1
    ensures Passed(hotp, pass1, pass2, initial, final, counter + 1)
  {
  }

  lemma PassHit(hotp: Hotp, pass1: string, pass2: string, initial: uint64, final: uint64, counter: uint64)
    requires Passed(hotp, pass1, pass2, initial, final, counter) && counter < final
    requires hotp(counter) == pass1 && hotp(counter + 1) != pass2
    ensures if counter + 1 < TOP then Passed(hotp, pass1, pass2, initial, final, counter + 2)
            else Wraps(hotp, pass1, pass2, initial, final)
  {
    if counter + 1 < TOP {
      assert HitsBefore(hotp, pass1, initial, counter + 1) == 1 + HitsBefore(hotp, pass1, initial, counter);
    }
  }

  lemma PassPair(hotp: Hotp, pass1: string, pass2: string, initial: uint64, final: uint64, counter: uint64)
    requires Passed(hotp, pass1, pass2, initial, final, counter) && counter < final
    requires hotp(counter) == pass1 && hotp(counter + 1) == pass2
    ensures FirstSeen(hotp, pass1, pass2, initial, final, counter + 1)
    ensures !Wraps(hotp, pass1, pass2, initial, final)
  {
    assert Seen(hotp, pass1, pass2, initial, final, counter);
  }

  lemma PassedAll(hotp: Hotp, pass1: string, pass2: string, initial: uint64, final: uint64, counter: uint64)
    requires Passed(hotp, pass1, pass2, initial, final, counter) && counter >= final
    ensures forall c :: !Seen(hotp, pass1, pass2, initial, final, c)
    ensures !Wraps(hotp, pass1, pass2, initial, final)
  {
  }

  datatype Ending = Found | NotFound | Wrapped

  /** The loop of main, up to its end or to counter zero. */
  method Scan(hotp: Hotp, pass1: string, pass2: string, initial: uint64, final: uint64, challenge: array<uchar>)
    returns (end: Ending, ghost at: uint64)
    requires challenge.Length == CHALLENGE_LEN
    modifies challenge
    ensures end.Found? ==> FirstSeen(hotp, pass1, pass2, initial, final, at) && challenge[..] == Challenge(at)
    ensures !end.Found? ==> forall c :: !Seen(hotp, pass1, pass2, initial, final, c)
    ensures end.Wrapped? <==> Wraps(hotp, pass1, pass2, initial, final)
  {
    var counter := initial;
    at := 0;
    while counter < final
      invariant counter <= TOP
      invariant Passed(hotp, pass1, pass2, initial, final, counter)
      decreases final - counter
    {
      var response := Passcode(hotp, counter, challenge);
      if response == pass1 {
        response := Passcode(hotp, counter + 1, challenge);
        if response == pass2 {
          PassPair(hotp, pass1, pass2, initial, final, counter);
          return Found, counter + 1;
        }
        PassHit(hotp, pass1, pass2, initial, final, counter);
        counter := counter + 1;
        if counter == TOP {
          return Wrapped, 0;
        }
      } else {
        PassMiss(hotp, pass1, pass2, initial, final, counter);
      }
      counter := counter + 1;
    }
    PassedAll(hotp, pass1, pass2, initial, final, counter);
    end := NotFound;
  }

  /** The loop of main. It prints the counter of the second passcode of the first pair that it
      sees, from start on, and stops without one when it sees none. Once it has started again from
      zero it does the same each time, so a second time makes it go on for ever. */
  method Search(hotp: Hotp, pass1: string, pass2: string, initial: uint64, final: uint64, challenge: array<uchar>)
    returns (end: Ending, ghost start: uint64, ghost at: uint64)
    requires challenge.Length == CHALLENGE_LEN
    modifies challenge
    ensures start == Start(hotp, pass1, pass2, initial, final)
    ensures end.Found? ==> FirstSeen(hotp, pass1, pass2, start, final, at) && challenge[..] == Challenge(at)
    ensures end.Found? <==> exists c :: Seen(hotp, pass1, pass2, start, final, c)
    ensures end.Wrapped? <==> Wraps(hotp, pass1, pass2, initial, final) && Wraps(hotp, pass1, pass2, 0, final)
  {
    start := initial;
    end, at := Scan(hotp, pass1, pass2, initial, final, challenge);
    if end.Wrapped? {
      start := 0;
      end, at := Scan(hotp, pass1, pass2, 0, final, challenge);
    }
  }

  ghost function Start(hotp: Hotp, pass1: string, pass2: string, initial: uint64, final: uint64): uint64 {
    if Wraps(hotp, pass1, pass2, initial, final) then 0 else initial
  }

  /** What the skipping costs: two hits in a row hide a pair that starts at the second. */
  lemma SkippedPair(pass1: string, pass2: string) returns (hotp: Hotp)
    requires pass1 != pass2
    ensures Pair(hotp, pass1, pass2, 1)
    ensures forall c: uint64 :: !Seen(hotp, pass1, pass2, 0, 2, c)
  {
    hotp := (c: uint64) => if c <= 1 then pass1 else pass2;
    assert HitsBefore(hotp, pass1, 0, 1) == 1 + HitsBefore(hotp, pass1, 0, 0);
  }

  /** No pair that starts after a counter without a hit, or at the first one, is passed over. */
  lemma PairAfterMissIsSeen(hotp: Hotp, pass1: string, pass2: string, initial: uint64, final: uint64, c: uint64)
    requires initial <= c < final && Pair(hotp, pass1, pass2, c)
    requires c == initial || hotp(c - 1) != pass1
    ensures Seen(hotp, pass1, pass2, initial, final, c)
  {
  }

  /** With one passcode entered twice, some pair is seen whenever there is one. */
  lemma {:induction false} SamePasscodeIsSeen(hotp: Hotp, pass: string, initial: uint64, final: uint64, c: uint64) returns (d: uint64)
    requires initial <= c < final && Pair(hotp, pass, pass, c)
    ensures d <= c && Seen(hotp, pass, pass, initial, final, d)
    decreases c
  {
    if Heads(hotp, pass, initial, c) {
      d := c;
    } else {
      d := SamePasscodeIsSeen(hotp, pass, initial, final, c - 1);
    }
  }

  // ---- the whole tool -----------------------------------------------------

  /** A state that has just seen the passcode of counter c. */
  function FreshRecord(c: uint64): Record {
    Record(Challenge(c), "", "", 0, 0, 0)
  }

  function Final(initial: uint64, final: uint64): uint64 {
    if final == 0 then ToU64(initial + 65536) else final
  }

  /** main after its options are read: the line it prints, if it does not exit with an error, and
      whether it goes on for ever. */
  method Resynchronize(hotp: Hotp, username: string, pass1: string, pass2: string, initial: uint64, final: uint64)
    returns (line: Option<string>, forever: bool, ghost start: uint64, ghost at: uint64)
    ensures start == Start(hotp, pass1, pass2, initial, Final(initial, final))
    ensures line.Some? <==> |pass1| == |pass2| == 6 && exists c :: Seen(hotp, pass1, pass2, start, Final(initial, final), c)
    ensures line.Some? ==>
      && FirstSeen(hotp, pass1, pass2, start, Final(initial, final), at)
      && line.value == FileText(Unparse(username, FreshRecord(at)))
    ensures forever <==>
      && |pass1| == |pass2| == 6 && Wraps(hotp, pass1, pass2, initial, Final(initial, final))
      && Wraps(hotp, pass1, pass2, 0, Final(initial, final))
  {
    line, forever, start, at := None, false, Start(hotp, pass1, pass2, initial, Final(initial, final)), 0;
    if |pass1| != 6 || |pass2| != 6 {
      return;
    }
    var last := final;
    if last == 0 {
      last := ToU64(initial + 65536);
    }
    var challenge := new uchar[CHALLENGE_LEN](_ => 0);
    var end;
    end, start, at := Search(hotp, pass1, pass2, initial, last, challenge);
    forever := end.Wrapped?;
    if end.Found? {
      var text := PrintLine(username, challenge, at);
      line := Some(text);
    }
  }

  /** A search up to the last counter that never ends. */
  lemma EndlessSearch(pass1: string, pass2: string, initial: uint64) returns (hotp: Hotp)
    requires initial < TOP
    ensures Wraps(hotp, pass1, pass2, initial, TOP) && Wraps(hotp, pass1, pass2, 0, TOP)
  {
    var other := pass1 + pass2 + "0";
    hotp := (c: uint64) => if c == TOP - 1 then pass1 else other;
    assert |other| > |pass1| && |other| > |pass2|;
  }

  /** Where no counter wraps: the search goes from initial up to the final counter, or over 65536
      counters if none is given. */
  method ResynchronizeBelow(hotp: Hotp, username: string, pass1: string, pass2: string, initial: uint64, final: uint64)
    returns (line: Option<string>, ghost at: uint64)
    requires final == 0 ==> initial + 65536 < 0xffff_ffff_ffff_ffff
    requires final < 0xffff_ffff_ffff_ffff
    ensures var end := if final == 0 then initial + 65536 else final;
      && (line.Some? <==> |pass1| == |pass2| == 6 && exists c: uint64 :: InRange(hotp, pass1, pass2, initial, end, c))
      && (line.Some? ==>
            && FirstInRange(hotp, pass1, pass2, initial, end, at)
            && line.value == "5:" + username + ":" + HexText.Encode(Challenge(at)) + ":::0:0:0:\n")
  {
    var forever;
    ghost var start;
    line, forever, start, at := Resynchronize(hotp, username, pass1, pass2, initial, final);
    RangeIsSeen(hotp, pass1, pass2, initial, Final(initial, final), at);
    if line.Some? {
      LineOfFresh(username, at);
    }
  }

  /** A pair within the range, with an even number of hits just before it. */
  predicate InRange(hotp: Hotp, pass1: string, pass2: string, initial: uint64, end: int, c: uint64) {
    && initial <= c < end && c < 0xffff_ffff_ffff_ffff && hotp(c) == pass1 && hotp(c + 1) == pass2
    && HitsBefore(hotp, pass1, initial, c) % 2 == 0
  }

  lemma RangeIsSeen(hotp: Hotp, pass1: string, pass2: string, initial: uint64, final: uint64, at: uint64)
    requires final < TOP
    ensures Start(hotp, pass1, pass2, initial, final) == initial
    ensures (exists c :: Seen(hotp, pass1, pass2, initial, final, c)) <==>
      exists c: uint64 :: InRange(hotp, pass1, pass2, initial, final, c)
    ensures FirstSeen(hotp, pass1, pass2, initial, final, at) ==> FirstInRange(hotp, pass1, pass2, initial, final, at)
  {
    forall c: uint64 ensures InRange(hotp, pass1, pass2, initial, final, c) <==> Seen(hotp, pass1, pass2, initial, final, c) {
    }
  }

  ghost predicate FirstInRange(hotp: Hotp, pass1: string, pass2: string, initial: uint64, end: int, at: uint64) {
    && at > 0 && InRange(hotp, pass1, pass2, initial, end, at - 1)
    && forall c: uint64 | c < at - 1 :: !InRange(hotp, pass1, pass2, initial, end, c)
  }

  /** The counters just before c that are hits, counted: those from b on, and none at b - 1. */
  lemma {:induction false} HitsBeforeIs(hotp: Hotp, pass1: string, initial: uint64, b: uint64, c: uint64)
    requires initial <= b <= c && forall d: uint64 | b <= d < c :: hotp(d) == pass1
    requires b == initial || hotp(b - 1) != pass1
    ensures HitsBefore(hotp, pass1, initial, c) == c - b
    decreases c - b
  {
    if b < c {
      HitsBeforeIs(hotp, pass1, initial, b, c - 1);
    }
  }

  method PrintLine(username: string, challenge: array<uchar>, ghost at: uint64) returns (line: string)
    requires challenge.Length == CHALLENGE_LEN && challenge[..] == Challenge(at)
    ensures line == FileText(Unparse(username, FreshRecord(at)))
  {
    assert challenge[..CHALLENGE_LEN] == challenge[..];
    var s := new char[17](_ => '\0');
    HexText.X2a(challenge, CHALLENGE_LEN, s);
    LineOfFresh(username, at);
    line := "5:" + username + ":" + s[..16] + ":::0:0:0:\n";
  }

  lemma LineOfFresh(username: string, c: uint64)
    ensures "5:" + username + ":" + HexText.Encode(Challenge(c)) + ":::0:0:0:\n" == FileText(Unparse(username, FreshRecord(c)))
  {
    assert HexText.Print(0) == "0";
  }

  /** The printed line is read back as the state it stands for. */
  lemma LineIsReadBack(username: string, at: uint64)
    requires '\0' !in username && |username| <= MAX_USERNAME_LEN
    ensures ReadBack(FileText(Unparse(username, FreshRecord(at))), username) == Good(FreshRecord(at))
  {
    FileRoundTrip(username, FreshRecord(at));
  }

  /** Window position 0 of the printed state is the next counter exactly when bit 31 of at is
      clear or its high word is all ones. */
  lemma FirstPositionIsNext(at: uint64)
    ensures Counter.At(at, 0) == ToU64(at + 1) <==> Counter.Lo(at) < TWO31 || Counter.Hi(at) == TWO32 - 1
  {
    Counter.NextIsSuccessor(at);
    assert Counter.Ahead(at, 0) == at;
  }

  lemma MatchesAtZero(u: User, at: uint64, a: Attempt)
    requires a.request.passcode == WithPin(a.config, u, u.hotp(Counter.At(at, 0)))
    requires 0 <= LastPosition(a.config, u)
    ensures FirstAt(u, Some(FreshRecord(at)), a, 0)
  {
  }

  /** The printed state lets the next passcode in, at window position 0, and moves on to its
      counter. */
  lemma NextPasscodeIsAccepted(u: User, at: uint64, a: Attempt)
    requires Counter.Lo(at) < TWO31 || Counter.Hi(at) == TWO32 - 1
    requires a.request.passcode == WithPin(a.config, u, u.hotp(ToU64(at + 1)))
    requires Served(u, Some(FreshRecord(at)), a) && a.env.put.Done? && a.config.ewindow < TWO31
    ensures var o := Decide(u, Some(FreshRecord(at)), a);
      o.rc == OK && o.stored.Some? && o.stored.value.challenge == Challenge(ToU64(at + 1))
  {
    var s := Some(FreshRecord(at));
    FirstPositionIsNext(at);
    MatchesAtZero(u, at, a);
    FreshStateAccepts(u, s, a);
    AcceptedMoves(u, s, a);
  }

  lemma AcceptedMoves(u: User, s: Option<Record>, a: Attempt)
    requires Served(u, s, a) && FirstAt(u, s, a, 0) && Took(Decide(u, s, a))
    ensures var o := Decide(u, s, a);
      o.stored.Some? && o.stored.value.challenge == Challenge(Counter.At(Base(s), 0))
  {
    ServedMatch(u, s, a, 0);
  }
}
