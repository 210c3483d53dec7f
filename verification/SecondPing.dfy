/** A key and a nonce for which the second ping of failover_thread.c is not the request: with the
    first eight blocks computed, the condition of Ping fails. */
module SecondPing {
  import opened Words
  import opened HelixBlock
  import opened HelixCipher
  import opened Ping
  import Key = HelixKey
  import Helix

  /** The nonce of a ping: stream id, length 4, request type 'G', and the sequence number. */
  function PingNonce(id0: word, id1: word, seqno: word): (n: seq<octet>)
    ensures |n| == Helix.NONCE_LEN
  {
    ToLE(id0) + ToLE(id1) + [4, 0, 0x47, 0] + ToLE(seqno)
  }

  /** The round that sends a ping with this nonce under a 32-octet key with working key k. */
  ghost function PingRound(f: Key.BlockFunction, k: seq<word>, n: seq<octet>): (r: Round)
    requires |k| == 8 && |n| == Helix.NONCE_LEN
    ensures |r.n| == 8
  {
    var w := Helix.NonceWords(n);
    Round(OptimizedFor(f, k, w, 32), w)
  }

  // ---- eight blocks -------------------------------------------------------

  /** States that follow each other under a schedule with zero plaintext. */
  ghost predicate IsPath(s: Schedule, z: seq<State>) {
    forall j | 0 <= j < |z| - 1 :: s.f(z[j], s.x0(j), s.x1(j), 0) == z[j + 1]
  }

  lemma {:induction false} RunsAlong(s: Schedule, z: seq<State>, j: nat)
    requires IsPath(s, z) && j < |z| <= 100
    ensures Run(s, Stream(z[j], j), Repeat(0, |z| - 1 - j)).0.z == z[|z| - 1]
    decreases |z| - j
  {
    var ps := Repeat(0, |z| - 1 - j);
    if j < |z| - 1 {
      RunsAlong(s, z, j + 1);
      assert ps[1..] == Repeat(0, |z| - 1 - (j + 1));
      assert Step(s, Stream(z[j], j), 0) == Stream(z[j + 1], j + 1);
    }
  }

  /** The zero working key; the nonce words of stream id (1, 0) and sequence number 0. */
  const KEY: seq<word> := [0, 0, 0, 0, 0, 0, 0, 0]
  const NONCE: seq<word> := [1, 0, 0x470004, 0, 0xffffffff, 1, 0xffb8fffe, 3]

  /** The second key words of the eight blocks. */
  const X1: seq<word> := [1, 0x81, 0x470006, 3, 3, 0x86, 0xffb90004, 0xa]

  const STATES: seq<State> := [
    State(1, 0, 0x470004, 0, 0),
    State(0xec16084, 0x6a3b502f, 0x32505f57, 0xebef5a14, 0x5573c722),
    State(0xb5a6745d, 0x8e1d9aaa, 0xde5cfe2d, 0x5793a1f6, 0x4f791dea),
    State(0x852e370, 0xbc5a0b7, 0xd31368e5, 0xad9c5596, 0x5418c5af),
    State(0x15f8130d, 0xc982690d, 0x17ee4aeb, 0xa07b9359, 0x6d2dc50),
    State(0xab423853, 0xce9e1251, 0xc380de1b, 0x98b56a24, 0xefaa2f9d),
    State(0x2aaa8d0e, 0x56f4a518, 0x7afbbe0, 0x3c2edcb5, 0x1126c9aa),
    State(0xe44b9c8c, 0x442cba7c, 0x2f71cf36, 0x39d042, 0x9a0c97db),
    State(0x1e44ed41, 0x22d91bee, 0x79f0d655, 0x1418de0f, 0x7afc43)]

  lemma Block0()
    ensures Block(STATES[0], 0, 1, 0) == STATES[1]
  {
  }

  lemma Block1()
    ensures Block(STATES[1], 0, 0x81, 0) == STATES[2]
  {
  }

  lemma Block2()
    ensures Block(STATES[2], 0, 0x470006, 0) == STATES[3]
  {
  }

  lemma Block3()
    ensures Block(STATES[3], 0, 3, 0) == STATES[4]
  {
  }

  lemma Block4()
    ensures Block(STATES[4], 0, 3, 0) == STATES[5]
  {
  }

  lemma Block5()
    ensures Block(STATES[5], 0, 0x86, 0) == STATES[6]
  {
  }

  lemma Block6()
    ensures Block(STATES[6], 0, 0xffb90004, 0) == STATES[7]
  {
  }

  lemma Block7()
    ensures Block(STATES[7], 0, 0xa, 0) == STATES[8]
  {
  }

  lemma BlockAt(f: Key.BlockFunction, j: nat)
    requires Helix.IsBlock(f) && j < 8
    ensures f(STATES[j], 0, X1[j], 0) == STATES[j + 1]
  {
    Block0();
    Block1();
    Block2();
    Block3();
    Block4();
    Block5();
    Block6();
    Block7();
  }

  const SMALL: seq<word> := [0, 1, 2, 3, 4, 5, 6, 7]

  lemma KeyWordAt(j: nat)
    requires j < 8
    ensures KEY[j % 8] == 0 && PlainX1(KEY, NONCE, 32, j) == X1[j]
  {
    SumAt(j);
    SmallLow(j);
    EarlyX1(KEY, NONCE, 32, j);
  }

  /** In the first eight blocks the block index has no upper bits. */
  lemma EarlyX1(k: seq<word>, n: seq<word>, l: nat, j: nat)
    requires |k| == |n| == 8 && j < 8 && k[(j + 4) % 8] == 0
    ensures PlainX1(k, n, l, j) == Add(Add(Add(0, n[j]), if j % 4 == 1 then Low(4 * l) else 0), Low(j))
  {
    assert j % 8 == j && j / BIAS == 0 && Low(0) == 0;
  }

  lemma SmallLow(j: nat)
    requires j < 8
    ensures Low(j) == SMALL[j] && Low(4 * 32) == 0x80
  {
    SmallNumbers();
    assert j == 0 || j == 1 || j == 2 || j == 3 || j == 4 || j == 5 || j == 6 || j == 7;
  }

  /** The parts of each second key word. */
  lemma SumAt(j: nat)
    requires j < 8
    ensures Add(Add(Add(0, NONCE[j]), if j % 4 == 1 then 0x80 else 0), SMALL[j]) == X1[j]
  {
  }

  lemma SmallNumbers()
    ensures Low(0) == 0 && Low(1) == 1 && Low(2) == 2 && Low(3) == 3 && Low(4) == 4 && Low(5) == 5 && Low(6) == 6 && Low(7) == 7
    ensures Low(4 * 32) == 0x80
  {
  }

  lemma StatesArePath(f: Key.BlockFunction)
    requires Helix.IsBlock(f)
    ensures IsPath(Plain(f, KEY, NONCE, 32), STATES)
  {
    forall j: nat | j < 8 ensures Plain(f, KEY, NONCE, 32).x1(j) == X1[j] {
      KeyWordAt(j);
    }
    forall j: nat | j < 8 ensures f(STATES[j], 0, X1[j], 0) == STATES[j + 1] {
      BlockAt(f, j);
    }
  }

  /** The first keystream word is not zero. */
  lemma FirstWord(f: Key.BlockFunction)
    requires Helix.IsBlock(f)
    ensures Setup(OptimizedFor(f, KEY, NONCE, 32), KEY, NONCE).z.z0 == 0x1e44ed41
  {
    var a, b := Plain(f, KEY, NONCE, 32), OptimizedFor(f, KEY, NONCE, 32);
    StatesArePath(f);
    SchedulesAgree(f, KEY, NONCE, 32);
    SetupAlong(a, b, KEY, NONCE, STATES);
  }

  /** A path from the initial state gives the first keystream word of both schedules. */
  lemma SetupAlong(a: Schedule, b: Schedule, k: seq<word>, n: seq<word>, z: seq<State>)
    requires |k| == |n| == 8 && Agree(a, b) && a.start == 0 && b.start == BIAS
    requires IsPath(a, z) && |z| == SETUP_BLOCKS + 1 && z[0] == Initial(k, n)
    ensures Setup(b, k, n).z == z[SETUP_BLOCKS]
  {
    RunsAlong(a, z, 0);
    SetupAgrees(a, b, k, n);
  }

  /** The four words of a ping's nonce. */
  lemma PingNonceWords(id0: word, id1: word, seqno: word)
    ensures var n := PingNonce(id0, id1, seqno);
      && FromLE(n[0..4]) == id0 && FromLE(n[4..8]) == id1
      && FromLE(n[8..12]) == 0x470004 && FromLE(n[12..16]) == seqno
  {
    var n := PingNonce(id0, id1, seqno);
    assert n[0..4] == ToLE(id0) && n[4..8] == ToLE(id1) && n[8..12] == [4, 0, 0x47, 0] && n[12..16] == ToLE(seqno);
    FromToLE(id0);
    FromToLE(id1);
    FromToLE(seqno);
    RequestWord();
  }

  lemma RequestWord()
    ensures FromLE([4, 0, 0x47, 0]) == 0x470004
  {
  }

  lemma Complements()
    ensures Sub(Low(0), 1) == 0xffffffff && Sub(Low(1), 0) == 1 && Sub(Low(2), 0x470004) == 0xffb8fffe && Sub(Low(3), 0) == 3
  {
    SmallNumbers();
  }

  lemma FirstNonceWords()
    ensures Helix.NonceWords(PingNonce(1, 0, 0)) == NONCE
  {
    var n := PingNonce(1, 0, 0);
    PingNonceWords(1, 0, 0);
    Complements();
    forall j | 0 <= j < 4 ensures NONCE[j] == FromLE(n[4 * j..4 * j + 4]) {
      assert j == 0 || j == 1 || j == 2 || j == 3;
    }
    forall j | 4 <= j < 8 ensures NONCE[j] == Sub(Low(j - 4), NONCE[j - 4]) {
      assert j == 4 || j == 5 || j == 6 || j == 7;
    }
    Helix.NonceWordsAre(NONCE, n);
  }

  /** There is a key and a stream id with which the primary reads the request in the first ping
      and something else in the second, whatever nonce that has. */
  lemma SecondPingIsNotRequest(f: Key.BlockFunction, n: seq<octet>) returns (u: seq<octet>)
    requires Helix.IsBlock(f) && |n| == Helix.NONCE_LEN
    ensures |u| == 32
    ensures var k := Key.WorkingKey(f, u);
      var rounds := [PingRound(f, k, PingNonce(1, 0, 0)), PingRound(f, k, n)];
      Read(k, rounds, 0) == REQUEST && Read(k, rounds, 1) != REQUEST
  {
    u := Key.WorkingKeySurjective(f, KEY);
    var rounds := [PingRound(f, KEY, PingNonce(1, 0, 0)), PingRound(f, KEY, n)];
    FirstNonceWords();
    FirstWord(f);
    NotRequest(KEY, rounds);
  }

  lemma NotRequest(k: seq<word>, rounds: seq<Round>)
    requires |k| == 8 && AreRounds(rounds) && |rounds| == 2 && Setup(rounds[0].s, k, rounds[0].n).z.z0 != 0
    ensures Read(k, rounds, 0) == REQUEST && Read(k, rounds, 1) != REQUEST
  {
    var ws := FirstWords(k, rounds);
    assert XorOfAll(ws, 1) == Xor(0, ws[0]) == ws[0];
    LaterPingIsRequestExactly(k, rounds, 0);
    LaterPingIsRequestExactly(k, rounds, 1);
  }
}
