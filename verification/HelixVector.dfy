/** A published test vector of Helix: the key "Helix", the nonce "0123456789abcdef" and the message
    "Hello, world!". Its 32 blocks are computed one by one, so it fixes every part of the cipher. */
module HelixVector {
  import opened Words
  import opened HelixBlock
  import opened HelixKey
  import opened HelixCipher
  import opened HelixPath
  import Helix

  const KEY: seq<octet> := [0x48, 0x65, 0x6c, 0x69, 0x78]
  const NONCE: seq<octet> := [0x30, 0x31, 0x32, 0x33, 0x34, 0x35, 0x36, 0x37, 0x38, 0x39, 0x61, 0x62, 0x63, 0x64, 0x65, 0x66]
  const TEXT: seq<octet> := [0x48, 0x65, 0x6c, 0x6c, 0x6f, 0x2c, 0x20, 0x77, 0x6f, 0x72, 0x6c, 0x64, 0x21]
  const CIPHERTEXT: seq<octet> := [0x6c, 0x4c, 0x27, 0xb9, 0x7a, 0x82, 0xa0, 0xc5, 0x80, 0x2c, 0x23, 0xf2, 0x0d]
  const TAG: seq<octet> := [0x6c, 0x82, 0xd1, 0xaa, 0x3b, 0x90, 0x5f, 0x12, 0xf1, 0x44, 0x3f, 0xa7, 0xf6, 0xa1, 0x01, 0xd2]

  // ---- the working key ----------------------------------------------------

  // Qi is words 4 * i to 4 * i + 3 of k[40] in helix_setkey.
  const Q0: seq<word> := [0x7ad71e6c, 0xd2a1a3cb, 0x20d61c8f, 0xda15f16d]
  const Q1: seq<word> := [0x4a2803f4, 0x9fb69b73, 0xf5857a35, 0x39113251]
  const Q2: seq<word> := [0xc20bd385, 0x7b6f2eb1, 0x6c4ac9a3, 0xe8c89010]
  const Q3: seq<word> := [0x18f87e3e, 0x9b689029, 0xf43cad6f, 0x51a73793]
  const Q4: seq<word> := [0x57ff04c, 0x5c8f9408, 0xca3224d, 0x87d67eac]
  const Q5: seq<word> := [0x733da43a, 0x18269f99, 0x77ea1541, 0x4b3f65e0]
  const Q6: seq<word> := [0xa20bc699, 0x15e2fabc, 0x82fe3eee, 0x3802a21a]
  const Q7: seq<word> := [0xd0634fb1, 0x9a6afab3, 0x5477e0c4, 0x11a524bb]
  const Q8: seq<word> := [0x696c6548, 0x78, 0, 0]
  const Q9: seq<word> := [0, 0, 0, 0]

  lemma Round7(f: BlockFunction)
    requires Helix.IsBlock(f)
    ensures MixRound(f, 5, Q8 + Q9) == Q7 + Q8
  {
    var z := State(0xd0634fb1, 0x9a6afab3, 0x5477e0c4, 0x11a524bb, 0x29da6baa);
    assert Block(State(Q8[0], Q8[1], Q8[2], Q8[3], 0x45), 0, 0, 0) == z;
    LengthWord();
    RoundIs(f, 5, Q8, Q9, z, 0x45);
    assert [Xor(z.z0, Q9[0]), Xor(z.z1, Q9[1]), Xor(z.z2, Q9[2]), Xor(z.z3, Q9[3])] == Q7;
  }

  lemma Round6(f: BlockFunction)
    requires Helix.IsBlock(f)
    ensures MixRound(f, 5, Q7 + Q8) == Q6 + Q7
  {
    var z := State(0xcb67a3d1, 0x15e2fac4, 0x82fe3eee, 0x3802a21a, 0x3cb637f7);
    assert Block(State(Q7[0], Q7[1], Q7[2], Q7[3], 0x45), 0, 0, 0) == z;
    LengthWord();
    RoundIs(f, 5, Q7, Q8, z, 0x45);
    assert [Xor(z.z0, Q8[0]), Xor(z.z1, Q8[1]), Xor(z.z2, Q8[2]), Xor(z.z3, Q8[3])] == Q6;
  }

  lemma Round5(f: BlockFunction)
    requires Helix.IsBlock(f)
    ensures MixRound(f, 5, Q6 + Q7) == Q5 + Q6
  {
    var z := State(0xa35eeb8b, 0x824c652a, 0x239df585, 0x5a9a415b, 0x29551a77);
    assert Block(State(Q6[0], Q6[1], Q6[2], Q6[3], 0x45), 0, 0, 0) == z;
    LengthWord();
    RoundIs(f, 5, Q6, Q7, z, 0x45);
    assert [Xor(z.z0, Q7[0]), Xor(z.z1, Q7[1]), Xor(z.z2, Q7[2]), Xor(z.z3, Q7[3])] == Q5;
  }

  lemma Round4(f: BlockFunction)
    requires Helix.IsBlock(f)
    ensures MixRound(f, 5, Q5 + Q6) == Q4 + Q5
  {
    var z := State(0xa77436d5, 0x496d6eb4, 0x8e5d1ca3, 0xbfd4dcb6, 0xd90b7a7);
    assert Block(State(Q5[0], Q5[1], Q5[2], Q5[3], 0x45), 0, 0, 0) == z;
    LengthWord();
    RoundIs(f, 5, Q5, Q6, z, 0x45);
    assert [Xor(z.z0, Q6[0]), Xor(z.z1, Q6[1]), Xor(z.z2, Q6[2]), Xor(z.z3, Q6[3])] == Q4;
  }

  lemma Round3(f: BlockFunction)
    requires Helix.IsBlock(f)
    ensures MixRound(f, 5, Q4 + Q5) == Q3 + Q4
  {
    var z := State(0x6bc5da04, 0x834e0fb0, 0x83d6b82e, 0x1a985273, 0xbbd468e1);
    assert Block(State(Q4[0], Q4[1], Q4[2], Q4[3], 0x45), 0, 0, 0) == z;
    LengthWord();
    RoundIs(f, 5, Q4, Q5, z, 0x45);
    assert [Xor(z.z0, Q5[0]), Xor(z.z1, Q5[1]), Xor(z.z2, Q5[2]), Xor(z.z3, Q5[3])] == Q3;
  }

  lemma Round2(f: BlockFunction)
    requires Helix.IsBlock(f)
    ensures MixRound(f, 5, Q3 + Q4) == Q2 + Q3
  {
    var z := State(0xc77423c9, 0x27e0bab9, 0x60e9ebee, 0x6f1eeebc, 0x641616ec);
    assert Block(State(Q3[0], Q3[1], Q3[2], Q3[3], 0x45), 0, 0, 0) == z;
    LengthWord();
    RoundIs(f, 5, Q3, Q4, z, 0x45);
    assert [Xor(z.z0, Q4[0]), Xor(z.z1, Q4[1]), Xor(z.z2, Q4[2]), Xor(z.z3, Q4[3])] == Q2;
  }

  lemma Round1(f: BlockFunction)
    requires Helix.IsBlock(f)
    ensures MixRound(f, 5, Q2 + Q3) == Q1 + Q2
  {
    var z := State(0x52d07dca, 0x4de0b5a, 0x1b9d75a, 0x68b605c2, 0xff5d96d8);
    assert Block(State(Q2[0], Q2[1], Q2[2], Q2[3], 0x45), 0, 0, 0) == z;
    LengthWord();
    RoundIs(f, 5, Q2, Q3, z, 0x45);
    assert [Xor(z.z0, Q3[0]), Xor(z.z1, Q3[1]), Xor(z.z2, Q3[2]), Xor(z.z3, Q3[3])] == Q1;
  }

  lemma Round0(f: BlockFunction)
    requires Helix.IsBlock(f)
    ensures MixRound(f, 5, Q1 + Q2) == Q0 + Q1
  {
    var z := State(0xb8dccde9, 0xa9ce8d7a, 0x4c9cd52c, 0x32dd617d, 0x82d235bb);
    assert Block(State(Q1[0], Q1[1], Q1[2], Q1[3], 0x45), 0, 0, 0) == z;
    LengthWord();
    RoundIs(f, 5, Q1, Q2, z, 0x45);
    assert [Xor(z.z0, Q2[0]), Xor(z.z1, Q2[1]), Xor(z.z2, Q2[2]), Xor(z.z3, Q2[3])] == Q0;
  }

  lemma LengthWord()
    ensures Low(69) == 0x45
  {
    assert Low(17) == 0x11;
    LowDouble(17, 0x11);
    LowDouble(34, 0x22);
    LowInc(68);
  }

  lemma AllRounds(f: BlockFunction, rounds: nat)
    requires Helix.IsBlock(f) && rounds == ROUNDS
    ensures Mix(f, 5, Q8 + Q9, rounds) == Q0 + Q1
  {
    var w := Q8 + Q9;
    assert Mix(f, 5, w, rounds - 8) == w;
    Round7(f);
    MixOnce(f, 5, w, rounds - 8, Q8 + Q9, Q7 + Q8);
    Round6(f);
    MixOnce(f, 5, w, rounds - 7, Q7 + Q8, Q6 + Q7);
    Round5(f);
    MixOnce(f, 5, w, rounds - 6, Q6 + Q7, Q5 + Q6);
    Round4(f);
    MixOnce(f, 5, w, rounds - 5, Q5 + Q6, Q4 + Q5);
    Round3(f);
    MixOnce(f, 5, w, rounds - 4, Q4 + Q5, Q3 + Q4);
    Round2(f);
    MixOnce(f, 5, w, rounds - 3, Q3 + Q4, Q2 + Q3);
    Round1(f);
    MixOnce(f, 5, w, rounds - 2, Q2 + Q3, Q1 + Q2);
    Round0(f);
    MixOnce(f, 5, w, rounds - 1, Q1 + Q2, Q0 + Q1);
  }

  lemma KeyWordsAre()
    ensures KeyWords(Extended(KEY)) == Q8 + Q9
  {
    var e, w := Extended(KEY), Q8 + Q9;
    assert e[0..4] == KEY[0..4] && e[4..8] == [KEY[4], 0, 0, 0];
    forall i | 2 <= i < 8 ensures e[4 * i..4 * i + 4] == [0, 0, 0, 0] {
    }
    FirstKeyWords();
    forall i | 0 <= i < 8 ensures KeyWords(e)[i] == w[i] {
      assert KeyWords(e)[i] == FromLE(e[4 * i..4 * i + 4]);
    }
  }

  lemma FirstKeyWords()
    ensures FromLE(KEY[0..4]) == 0x696c6548 && FromLE([KEY[4], 0, 0, 0]) == 0x78 && FromLE([0, 0, 0, 0]) == 0
  {
    assert KEY[0..4] == [0x48, 0x65, 0x6c, 0x69];
  }

  const K: seq<word> := [0x7ad71e6c, 0xd2a1a3cb, 0x20d61c8f, 0xda15f16d, 0x4a2803f4, 0x9fb69b73, 0xf5857a35, 0x39113251]

  lemma Halves()
    ensures Q0 + Q1 == K && |KEY| == 5
  {
  }

  lemma WorkingKeyIs(f: BlockFunction)
    requires Helix.IsBlock(f)
    ensures WorkingKey(f, KEY) == K
  {
    KeyWordsAre();
    AllRounds(f, ROUNDS);
    Halves();
  }

  // ---- the nonce ----------------------------------------------------------

  const N: seq<word> := [0x33323130, 0x37363534, 0x62613938, 0x66656463, 0xcccdced0, 0xc8c9cacd, 0x9d9ec6ca, 0x999a9ba0]

  lemma NonceWordsAre()
    ensures Helix.NonceWords(NONCE) == N
  {
    FirstNonceWords();
    Complements();
    forall j | 0 <= j < 4 ensures N[j] == FromLE(NONCE[4 * j..4 * j + 4]) {
      assert j == 0 || j == 1 || j == 2 || j == 3;
    }
    forall j | 4 <= j < 8 ensures N[j] == Sub(Low(j - 4), N[j - 4]) {
      assert j == 4 || j == 5 || j == 6 || j == 7;
    }
    Helix.NonceWordsAre(N, NONCE);
  }

  lemma FirstNonceWords()
    ensures FromLE(NONCE[0..4]) == N[0] && FromLE(NONCE[4..8]) == N[1]
    ensures FromLE(NONCE[8..12]) == N[2] && FromLE(NONCE[12..16]) == N[3]
  {
    assert NONCE[0..4] == [0x30, 0x31, 0x32, 0x33] && NONCE[4..8] == [0x34, 0x35, 0x36, 0x37];
    assert NONCE[8..12] == [0x38, 0x39, 0x61, 0x62] && NONCE[12..16] == [0x63, 0x64, 0x65, 0x66];
  }

  lemma Complements()
    ensures Sub(Low(0), N[0]) == N[4] && Sub(Low(1), N[1]) == N[5] && Sub(Low(2), N[2]) == N[6] && Sub(Low(3), N[3]) == N[7]
  {
    assert Low(0) == 0 && Low(1) == 1 && Low(2) == 2 && Low(3) == 3;
  }

  // ---- four blocks at a time ----------------------------------------------

  /** The key words of block j. */
  predicate At(s: Schedule, j: nat, x0: word, x1: word) {
    s.x0(j) == x0 && s.x1(j) == x1
  }

  /** The key words, while i + 8 has no upper bits. */
  lemma EarlyKey(f: BlockFunction, ks: seq<word>, ns: seq<word>, j: nat, x: word, x0: word, k: word, n: word, e: word, r: word)
    requires |ks| == |ns| == 8 && j < 24 && Low(j) == x && ks[j % 8] == x0
    requires ks[(j + 4) % 8] == k && ns[j % 8] == n && e == (if j % 4 == 1 then 20 else 0)
    requires Add(Add(Add(k, n), e), x) == r
    ensures At(Plain(f, ks, ns, 5), j, x0, r)
  {
    EarlyX1(ks, ns, j, x, k, n, e);
  }

  lemma EarlyX1(ks: seq<word>, ns: seq<word>, j: nat, x: word, k: word, n: word, e: word)
    requires |ks| == |ns| == 8 && j < 24 && Low(j) == x
    requires ks[(j + 4) % 8] == k && ns[j % 8] == n && e == (if j % 4 == 1 then 20 else 0)
    ensures PlainX1(ks, ns, 5, j) == Add(Add(Add(k, n), e), x)
  {
    EarlyExtra(j);
  }

  lemma EarlyExtra(j: nat)
    requires j < 24
    ensures Extra(5, j) == if j % 4 == 1 then 20 else 0
  {
    assert j / BIAS == 0 && Low(0) == 0 && Low(4 * 5) == 20;
  }

  lemma KeyLiterals()
    ensures K[0] == 0x7ad71e6c && K[1] == 0xd2a1a3cb && K[2] == 0x20d61c8f && K[3] == 0xda15f16d
    ensures K[4] == 0x4a2803f4 && K[5] == 0x9fb69b73 && K[6] == 0xf5857a35 && K[7] == 0x39113251
  {
  }

  lemma NonceLiterals()
    ensures N[0] == 0x33323130 && N[1] == 0x37363534 && N[2] == 0x62613938 && N[3] == 0x66656463
    ensures N[4] == 0xcccdced0 && N[5] == 0xc8c9cacd && N[6] == 0x9d9ec6ca && N[7] == 0x999a9ba0
  {
  }

  // The counters as words.

  lemma Counters0()
    ensures Low(0) == 0 && Low(1) == 1 && Low(2) == 2 && Low(3) == 3
  {
  }

  lemma Counters1()
    ensures Low(4) == 4 && Low(5) == 5 && Low(6) == 6 && Low(7) == 7
  {
  }

  lemma Counters2()
    ensures Low(8) == 8 && Low(9) == 9 && Low(10) == 0xa && Low(11) == 0xb
  {
  }

  lemma Counters3()
    ensures Low(12) == 0xc && Low(13) == 0xd && Low(14) == 0xe && Low(15) == 0xf
  {
  }

  lemma Counters4()
    ensures Low(16) == 0x10 && Low(17) == 0x11 && Low(18) == 0x12 && Low(19) == 0x13
  {
  }

  lemma Counters5()
    ensures Low(20) == 0x14 && Low(21) == 0x15 && Low(22) == 0x16 && Low(23) == 0x17
  {
    assert Low(19) == 0x13;
    CounterAfter(19, 0x13, 0x14);
    CounterAfter(20, 0x14, 0x15);
    CounterAfter(21, 0x15, 0x16);
    CounterAfter(22, 0x16, 0x17);
  }

  lemma CounterAfter(n: nat, w: word, w': word)
    requires Low(n) == w && Add(w, 1) == w'
    ensures Low(n + 1) == w'
  {
    LowInc(n);
  }

  lemma BlockIs(f: BlockFunction, z: State, x0: word, x1: word, p: word, r: State)
    requires Helix.IsBlock(f) && Block(z, x0, x1, p) == r
    ensures f(z, x0, x1, p) == r
  {
  }

  lemma Blocks0(s: Schedule)
    requires Helix.IsBlock(s.f)
    requires At(s, 0, 0x7ad71e6c, 0x7d5a3524) && At(s, 1, 0xd2a1a3cb, 0xd6ecd0bc)
    requires At(s, 2, 0x20d61c8f, 0x57e6b36f) && At(s, 3, 0xda15f16d, 0x9f7696b7)
    ensures Run(s, Stream(State(0xe927c05d, 0x7d1e36c0, 0xfdd7a24b, 0x93e01e56, 0x39113251), 0), [0, 0, 0, 0]) ==
      (Stream(State(0x682ccd18, 0x975eb64d, 0xb0a6ccae, 0x8b93d159, 0x9f2e670), 4), [0xe927c05d, 0x498dee17, 0xdeaedd9e, 0xe50ac47])
  {
    var z := State(0xe927c05d, 0x7d1e36c0, 0xfdd7a24b, 0x93e01e56, 0x39113251);
    var z1 := State(0x498dee17, 0x6737be29, 0x8e072f2c, 0x2042a7a0, 0xe3e0855e);
    var z2 := State(0xdeaedd9e, 0xaa4056e7, 0x2640a68b, 0xb6b3ca63, 0xf35eff3c);
    var z3 := State(0xe50ac47, 0x23b6a00a, 0x2afd98b9, 0x45b39971, 0xe3fc2593);
    var z4 := State(0x682ccd18, 0x975eb64d, 0xb0a6ccae, 0x8b93d159, 0x9f2e670);
    BlockIs(s.f, z, 0x7ad71e6c, 0x7d5a3524, 0, z1);
    BlockIs(s.f, z1, 0xd2a1a3cb, 0xd6ecd0bc, 0, z2);
    BlockIs(s.f, z2, 0x20d61c8f, 0x57e6b36f, 0, z3);
    BlockIs(s.f, z3, 0xda15f16d, 0x9f7696b7, 0, z4);
    FourBlocks(s, 0, z, z1, z2, z3, z4, 0, 0, 0, 0);
  }

  lemma Blocks1(s: Schedule)
    requires Helix.IsBlock(s.f)
    requires At(s, 4, 0x4a2803f4, 0x47a4ed40) && At(s, 5, 0x9fb69b73, 0x9b6b6eb1)
    requires At(s, 6, 0xf5857a35, 0xbe74e35f) && At(s, 7, 0x39113251, 0x73b08d14)
    ensures Run(s, Stream(State(0x682ccd18, 0x975eb64d, 0xb0a6ccae, 0x8b93d159, 0x9f2e670), 4), [0, 0, 0, 0]) ==
      (Stream(State(0xd54b2924, 0x7df050f5, 0xbd5c1690, 0x68b1809b, 0xd21568cd), 8), [0x682ccd18, 0x186ccc5, 0xb1e300a8, 0x122917e9])
  {
    var z := State(0x682ccd18, 0x975eb64d, 0xb0a6ccae, 0x8b93d159, 0x9f2e670);
    var z1 := State(0x186ccc5, 0xe0341af9, 0xedd8df64, 0x74dad269, 0x899cb256);
    var z2 := State(0xb1e300a8, 0xdbd93339, 0x57ce89ce, 0x68ad4ff8, 0xb5402f63);
    var z3 := State(0x122917e9, 0x9e170c63, 0x7111ca41, 0x47cfe7d6, 0x2782492a);
    var z4 := State(0xd54b2924, 0x7df050f5, 0xbd5c1690, 0x68b1809b, 0xd21568cd);
    BlockIs(s.f, z, 0x4a2803f4, 0x47a4ed40, 0, z1);
    BlockIs(s.f, z1, 0x9fb69b73, 0x9b6b6eb1, 0, z2);
    BlockIs(s.f, z2, 0xf5857a35, 0xbe74e35f, 0, z3);
    BlockIs(s.f, z3, 0x39113251, 0x73b08d14, 0, z4);
    FourBlocks(s, 4, z, z1, z2, z3, z4, 0, 0, 0, 0);
  }

  lemma Blocks2(s: Schedule)
    requires Helix.IsBlock(s.f)
    requires At(s, 8, 0x7ad71e6c, 0x7d5a352c) && At(s, 9, 0xd2a1a3cb, 0xd6ecd0c4)
    requires At(s, 10, 0x20d61c8f, 0x57e6b377) && At(s, 11, 0xda15f16d, 0x9f7696bf)
    ensures Run(s, Stream(State(0xd54b2924, 0x7df050f5, 0xbd5c1690, 0x68b1809b, 0xd21568cd), 8), [0x6c6c6548, 0x77202c6f, 0x646c726f, 0x21]) ==
      (Stream(State(0xec68abae, 0xa93640b0, 0x2e96db5f, 0xab54a0d5, 0x418396ee), 12), [0xd54b2924, 0xb280ae15, 0x964f5eef, 0x782552c])
  {
    var z := State(0xd54b2924, 0x7df050f5, 0xbd5c1690, 0x68b1809b, 0xd21568cd);
    var z1 := State(0xb280ae15, 0x64d14bc7, 0x3bab59b9, 0xf8821c1d, 0x1f1ef778);
    var z2 := State(0x964f5eef, 0xbc3b3129, 0xc8be75e8, 0x4d54d658, 0x84ed8ed);
    var z3 := State(0x782552c, 0xc6d95626, 0xb8bb0983, 0x9c85db98, 0xe00bf281);
    var z4 := State(0xec68abae, 0xa93640b0, 0x2e96db5f, 0xab54a0d5, 0x418396ee);
    BlockIs(s.f, z, 0x7ad71e6c, 0x7d5a352c, 0x6c6c6548, z1);
    BlockIs(s.f, z1, 0xd2a1a3cb, 0xd6ecd0c4, 0x77202c6f, z2);
    BlockIs(s.f, z2, 0x20d61c8f, 0x57e6b377, 0x646c726f, z3);
    BlockIs(s.f, z3, 0xda15f16d, 0x9f7696bf, 0x21, z4);
    FourBlocks(s, 8, z, z1, z2, z3, z4, 0x6c6c6548, 0x77202c6f, 0x646c726f, 0x21);
  }

  lemma Blocks3(s: Schedule)
    requires Helix.IsBlock(s.f)
    requires At(s, 12, 0x4a2803f4, 0x47a4ed48) && At(s, 13, 0x9fb69b73, 0x9b6b6eb9)
    requires At(s, 14, 0xf5857a35, 0xbe74e367) && At(s, 15, 0x39113251, 0x73b08d1c)
    ensures Run(s, Stream(State(0x7d453f5f, 0xa93640b0, 0x2e96db5f, 0xab54a0d5, 0x418396ee), 12), [1, 1, 1, 1]) ==
      (Stream(State(0x8f36d8d5, 0x794ff912, 0x128fce76, 0x9b92f366, 0xe1817d93), 16), [0x7d453f5f, 0x1c354a3b, 0x95a371b, 0x2dd92964])
  {
    var z := State(0x7d453f5f, 0xa93640b0, 0x2e96db5f, 0xab54a0d5, 0x418396ee);
    var z1 := State(0x1c354a3b, 0xe04b722e, 0x74edc73a, 0x1311249a, 0x2b2ea379);
    var z2 := State(0x95a371b, 0x7fbc648a, 0x3ed18078, 0xc8841971, 0xddf1fe8a);
    var z3 := State(0x2dd92964, 0x53a96cd6, 0x4a1c8c8b, 0x555d4430, 0x70e1a5b7);
    var z4 := State(0x8f36d8d5, 0x794ff912, 0x128fce76, 0x9b92f366, 0xe1817d93);
    BlockIs(s.f, z, 0x4a2803f4, 0x47a4ed48, 1, z1);
    BlockIs(s.f, z1, 0x9fb69b73, 0x9b6b6eb9, 1, z2);
    BlockIs(s.f, z2, 0xf5857a35, 0xbe74e367, 1, z3);
    BlockIs(s.f, z3, 0x39113251, 0x73b08d1c, 1, z4);
    FourBlocks(s, 12, z, z1, z2, z3, z4, 1, 1, 1, 1);
  }

  lemma Blocks4(s: Schedule)
    requires Helix.IsBlock(s.f)
    requires At(s, 16, 0x7ad71e6c, 0x7d5a3534) && At(s, 17, 0xd2a1a3cb, 0xd6ecd0cc)
    requires At(s, 18, 0x20d61c8f, 0x57e6b37f) && At(s, 19, 0xda15f16d, 0x9f7696c7)
    ensures Run(s, Stream(State(0x8f36d8d5, 0x794ff912, 0x128fce76, 0x9b92f366, 0xe1817d93), 16), [1, 1, 1, 1]) ==
      (Stream(State(0xaad1826c, 0xac62f1bf, 0xf65b23f1, 0x6804d081, 0xb5695e59), 20), [0x8f36d8d5, 0x50ac4352, 0x594df789, 0x99deeafb])
  {
    var z := State(0x8f36d8d5, 0x794ff912, 0x128fce76, 0x9b92f366, 0xe1817d93);
    var z1 := State(0x50ac4352, 0xd825befb, 0x137ca377, 0xf96393b, 0x7b6a9716);
    var z2 := State(0x594df789, 0x5afcfa4b, 0x73036add, 0x45b3303c, 0xf7ca4ac7);
    var z3 := State(0x99deeafb, 0x5d0e62b5, 0x486aa931, 0x4fad77ac, 0x58886a21);
    var z4 := State(0xaad1826c, 0xac62f1bf, 0xf65b23f1, 0x6804d081, 0xb5695e59);
    BlockIs(s.f, z, 0x7ad71e6c, 0x7d5a3534, 1, z1);
    BlockIs(s.f, z1, 0xd2a1a3cb, 0xd6ecd0cc, 1, z2);
    BlockIs(s.f, z2, 0x20d61c8f, 0x57e6b37f, 1, z3);
    BlockIs(s.f, z3, 0xda15f16d, 0x9f7696c7, 1, z4);
    FourBlocks(s, 16, z, z1, z2, z3, z4, 1, 1, 1, 1);
  }

  lemma Blocks5(s: Schedule)
    requires Helix.IsBlock(s.f)
    requires At(s, 20, 0x4a2803f4, 0x47a4ed50) && At(s, 21, 0x9fb69b73, 0x9b6b6ec1)
    requires At(s, 22, 0xf5857a35, 0xbe74e36f) && At(s, 23, 0x39113251, 0x73b08d24)
    ensures Run(s, Stream(State(0xaad1826c, 0xac62f1bf, 0xf65b23f1, 0x6804d081, 0xb5695e59), 20), [1, 1, 1, 1]) ==
      (Stream(State(0xeecce7de, 0xc28cd36c, 0x9c6d1c67, 0x42637fd5, 0x384ff60), 24), [0xaad1826c, 0x125f903b, 0xa73f44f1, 0xd201a1f6])
  {
    var z := State(0xaad1826c, 0xac62f1bf, 0xf65b23f1, 0x6804d081, 0xb5695e59);
    var z1 := State(0x125f903b, 0x69b1be5e, 0x534ec5a8, 0x4dcad2cf, 0x9389ad27);
    var z2 := State(0xa73f44f1, 0xc8d04746, 0xd548e20b, 0x662d90e, 0x7ee81150);
    var z3 := State(0xd201a1f6, 0x636b03aa, 0x5fab58cc, 0xb47f5f02, 0x7db8cdfc);
    var z4 := State(0xeecce7de, 0xc28cd36c, 0x9c6d1c67, 0x42637fd5, 0x384ff60);
    BlockIs(s.f, z, 0x4a2803f4, 0x47a4ed50, 1, z1);
    BlockIs(s.f, z1, 0x9fb69b73, 0x9b6b6ec1, 1, z2);
    BlockIs(s.f, z2, 0xf5857a35, 0xbe74e36f, 1, z3);
    BlockIs(s.f, z3, 0x39113251, 0x73b08d24, 1, z4);
    FourBlocks(s, 20, z, z1, z2, z3, z4, 1, 1, 1, 1);
  }

  // ---- the whole vector ---------------------------------------------------

  lemma Keys0(f: BlockFunction)
    ensures At(Plain(f, K, N, 5), 0, 0x7ad71e6c, 0x7d5a3524) && At(Plain(f, K, N, 5), 1, 0xd2a1a3cb, 0xd6ecd0bc)
    ensures At(Plain(f, K, N, 5), 2, 0x20d61c8f, 0x57e6b36f) && At(Plain(f, K, N, 5), 3, 0xda15f16d, 0x9f7696b7)
  {
    Counters0();
    KeyLiterals();
    NonceLiterals();
    EarlyKey(f, K, N, 0, 0, 0x7ad71e6c, 0x4a2803f4, 0x33323130, 0, 0x7d5a3524);
    EarlyKey(f, K, N, 1, 1, 0xd2a1a3cb, 0x9fb69b73, 0x37363534, 0x14, 0xd6ecd0bc);
    EarlyKey(f, K, N, 2, 2, 0x20d61c8f, 0xf5857a35, 0x62613938, 0, 0x57e6b36f);
    EarlyKey(f, K, N, 3, 3, 0xda15f16d, 0x39113251, 0x66656463, 0, 0x9f7696b7);
  }

  lemma Keys1(f: BlockFunction)
    ensures At(Plain(f, K, N, 5), 4, 0x4a2803f4, 0x47a4ed40) && At(Plain(f, K, N, 5), 5, 0x9fb69b73, 0x9b6b6eb1)
    ensures At(Plain(f, K, N, 5), 6, 0xf5857a35, 0xbe74e35f) && At(Plain(f, K, N, 5), 7, 0x39113251, 0x73b08d14)
  {
    Counters1();
    KeyLiterals();
    NonceLiterals();
    EarlyKey(f, K, N, 4, 4, 0x4a2803f4, 0x7ad71e6c, 0xcccdced0, 0, 0x47a4ed40);
    EarlyKey(f, K, N, 5, 5, 0x9fb69b73, 0xd2a1a3cb, 0xc8c9cacd, 0x14, 0x9b6b6eb1);
    EarlyKey(f, K, N, 6, 6, 0xf5857a35, 0x20d61c8f, 0x9d9ec6ca, 0, 0xbe74e35f);
    EarlyKey(f, K, N, 7, 7, 0x39113251, 0xda15f16d, 0x999a9ba0, 0, 0x73b08d14);
  }

  lemma Keys2(f: BlockFunction)
    ensures At(Plain(f, K, N, 5), 8, 0x7ad71e6c, 0x7d5a352c) && At(Plain(f, K, N, 5), 9, 0xd2a1a3cb, 0xd6ecd0c4)
    ensures At(Plain(f, K, N, 5), 10, 0x20d61c8f, 0x57e6b377) && At(Plain(f, K, N, 5), 11, 0xda15f16d, 0x9f7696bf)
  {
    Counters2();
    KeyLiterals();
    NonceLiterals();
    EarlyKey(f, K, N, 8, 8, 0x7ad71e6c, 0x4a2803f4, 0x33323130, 0, 0x7d5a352c);
    EarlyKey(f, K, N, 9, 9, 0xd2a1a3cb, 0x9fb69b73, 0x37363534, 0x14, 0xd6ecd0c4);
    EarlyKey(f, K, N, 10, 0xa, 0x20d61c8f, 0xf5857a35, 0x62613938, 0, 0x57e6b377);
    EarlyKey(f, K, N, 11, 0xb, 0xda15f16d, 0x39113251, 0x66656463, 0, 0x9f7696bf);
  }

  lemma Keys3(f: BlockFunction)
    ensures At(Plain(f, K, N, 5), 12, 0x4a2803f4, 0x47a4ed48) && At(Plain(f, K, N, 5), 13, 0x9fb69b73, 0x9b6b6eb9)
    ensures At(Plain(f, K, N, 5), 14, 0xf5857a35, 0xbe74e367) && At(Plain(f, K, N, 5), 15, 0x39113251, 0x73b08d1c)
  {
    Counters3();
    KeyLiterals();
    NonceLiterals();
    EarlyKey(f, K, N, 12, 0xc, 0x4a2803f4, 0x7ad71e6c, 0xcccdced0, 0, 0x47a4ed48);
    EarlyKey(f, K, N, 13, 0xd, 0x9fb69b73, 0xd2a1a3cb, 0xc8c9cacd, 0x14, 0x9b6b6eb9);
    EarlyKey(f, K, N, 14, 0xe, 0xf5857a35, 0x20d61c8f, 0x9d9ec6ca, 0, 0xbe74e367);
    EarlyKey(f, K, N, 15, 0xf, 0x39113251, 0xda15f16d, 0x999a9ba0, 0, 0x73b08d1c);
  }

  lemma Keys4(f: BlockFunction)
    ensures At(Plain(f, K, N, 5), 16, 0x7ad71e6c, 0x7d5a3534) && At(Plain(f, K, N, 5), 17, 0xd2a1a3cb, 0xd6ecd0cc)
    ensures At(Plain(f, K, N, 5), 18, 0x20d61c8f, 0x57e6b37f) && At(Plain(f, K, N, 5), 19, 0xda15f16d, 0x9f7696c7)
  {
    Counters4();
    KeyLiterals();
    NonceLiterals();
    EarlyKey(f, K, N, 16, 0x10, 0x7ad71e6c, 0x4a2803f4, 0x33323130, 0, 0x7d5a3534);
    EarlyKey(f, K, N, 17, 0x11, 0xd2a1a3cb, 0x9fb69b73, 0x37363534, 0x14, 0xd6ecd0cc);
    EarlyKey(f, K, N, 18, 0x12, 0x20d61c8f, 0xf5857a35, 0x62613938, 0, 0x57e6b37f);
    EarlyKey(f, K, N, 19, 0x13, 0xda15f16d, 0x39113251, 0x66656463, 0, 0x9f7696c7);
  }

  lemma Keys5(f: BlockFunction)
    ensures At(Plain(f, K, N, 5), 20, 0x4a2803f4, 0x47a4ed50) && At(Plain(f, K, N, 5), 21, 0x9fb69b73, 0x9b6b6ec1)
    ensures At(Plain(f, K, N, 5), 22, 0xf5857a35, 0xbe74e36f) && At(Plain(f, K, N, 5), 23, 0x39113251, 0x73b08d24)
  {
    Counters5();
    KeyLiterals();
    NonceLiterals();
    EarlyKey(f, K, N, 20, 0x14, 0x4a2803f4, 0x7ad71e6c, 0xcccdced0, 0, 0x47a4ed50);
    EarlyKey(f, K, N, 21, 0x15, 0x9fb69b73, 0xd2a1a3cb, 0xc8c9cacd, 0x14, 0x9b6b6ec1);
    EarlyKey(f, K, N, 22, 0x16, 0xf5857a35, 0x20d61c8f, 0x9d9ec6ca, 0, 0xbe74e36f);
    EarlyKey(f, K, N, 23, 0x17, 0x39113251, 0xda15f16d, 0x999a9ba0, 0, 0x73b08d24);
  }

  /** The stream before the message. */
  lemma SetupIs(f: BlockFunction, s: Schedule)
    requires Helix.IsBlock(f) && s == Plain(f, K, N, 5)
    ensures Setup(s, K, N) == Stream(State(0xd54b2924, 0x7df050f5, 0xbd5c1690, 0x68b1809b, 0xd21568cd), 8)
  {
    Keys0(f);
    Keys1(f);
    Blocks0(s);
    Blocks1(s);
    InitialIs();
    RunOfTwo(s, Stream(Initial(K, N), 0), [0, 0, 0, 0], [0, 0, 0, 0]);
    assert Repeat(0, 8) == [0, 0, 0, 0] + [0, 0, 0, 0];
  }

  lemma InitialIs()
    ensures Initial(K, N) == State(0xe927c05d, 0x7d1e36c0, 0xfdd7a24b, 0x93e01e56, 0x39113251)
  {
  }

  const WORDS: seq<word> := [0x6c6c6548, 0x77202c6f, 0x646c726f, 0x21]

  lemma MessageIs()
    ensures MessageWords(TEXT) == WORDS
  {
    TextWords();
    assert TEXT[4..][4..] == TEXT[8..] && TEXT[8..][4..] == TEXT[12..] && TEXT[12..][1..] == [];
    assert Chunk(TEXT) == TEXT[..4] && Chunk(TEXT[4..]) == TEXT[4..8];
    assert Chunk(TEXT[8..]) == TEXT[8..12] && Chunk(TEXT[12..]) == TEXT[12..];
    assert MessageWords(TEXT[12..]) == [WORDS[3]];
    assert MessageWords(TEXT[8..]) == [WORDS[2], WORDS[3]];
    assert MessageWords(TEXT[4..]) == [WORDS[1], WORDS[2], WORDS[3]];
  }

  lemma TextWords()
    ensures FromLE(TEXT[..4]) == WORDS[0] && FromLE(TEXT[4..8]) == WORDS[1]
    ensures FromLE(TEXT[8..12]) == WORDS[2] && FromLE(TEXT[12..]) == WORDS[3]
  {
    assert TEXT[..4] == [0x48, 0x65, 0x6c, 0x6c] && TEXT[4..8] == [0x6f, 0x2c, 0x20, 0x77];
    assert TEXT[8..12] == [0x6f, 0x72, 0x6c, 0x64] && TEXT[12..] == [0x21];
  }

  /** The keystream of the message, and the state after it. */
  lemma MessageKeystream(f: BlockFunction, s: Schedule)
    requires Helix.IsBlock(f) && s == Plain(f, K, N, 5)
    ensures Encrypt(s, Setup(s, K, N), TEXT) ==
      (Stream(State(0xec68abae, 0xa93640b0, 0x2e96db5f, 0xab54a0d5, 0x418396ee), 12), CIPHERTEXT)
  {
    SetupIs(f, s);
    Keys2(f);
    Blocks2(s);
    MessageIs();
    EncryptIsKeystreamXor(s, Setup(s, K, N), TEXT);
    Masked();
  }

  const STREAM: seq<word> := [0xd54b2924, 0xb280ae15, 0x964f5eef, 0x782552c]

  lemma Masked()
    ensures XorOctets(TEXT, Octets(STREAM)) == CIPHERTEXT
  {
    StreamOctets();
    OctetsAre(STREAM, PAD);
    assert |XorOctets(TEXT, PAD)| == 13;
    forall i | 0 <= i < 13 ensures XorOctets(TEXT, PAD)[i] == CIPHERTEXT[i] {
      assert XorOctets(TEXT, PAD)[i] == Xor8(TEXT[i], PAD[i]);
      PadAt(i);
    }
  }

  lemma PadAt(i: nat)
    requires i < 13
    ensures Xor8(TEXT[i], PAD[i]) == CIPHERTEXT[i]
  {
    PadOctets();
    assert i == 0 || i == 1 || i == 2 || i == 3 || i == 4 || i == 5 || i == 6 || i == 7 || i == 8 || i == 9 || i == 10 || i == 11 || i == 12;
  }

  lemma PadOctets()
    ensures Xor8(0x48, 0x24) == 0x6c && Xor8(0x65, 0x29) == 0x4c && Xor8(0x6c, 0x4b) == 0x27 && Xor8(0x6c, 0xd5) == 0xb9
    ensures Xor8(0x6f, 0x15) == 0x7a && Xor8(0x2c, 0xae) == 0x82 && Xor8(0x20, 0x80) == 0xa0 && Xor8(0x77, 0xb2) == 0xc5
    ensures Xor8(0x6f, 0xef) == 0x80 && Xor8(0x72, 0x5e) == 0x2c && Xor8(0x6c, 0x4f) == 0x23 && Xor8(0x64, 0x96) == 0xf2 && Xor8(0x21, 0x2c) == 0xd
  {
  }

  const PAD: seq<octet> := [0x24, 0x29, 0x4b, 0xd5, 0x15, 0xae, 0x80, 0xb2, 0xef, 0x5e, 0x4f, 0x96, 0x2c, 0x55, 0x82, 7]

  lemma StreamOctets()
    ensures forall i | 0 <= i < 4 :: ToLE(STREAM[i]) == PAD[4 * i..4 * i + 4]
  {
    forall i | 0 <= i < 4 ensures ToLE(STREAM[i]) == PAD[4 * i..4 * i + 4] {
      assert i == 0 || i == 1 || i == 2 || i == 3;
    }
  }

  /** The tag of thirteen octets. */
  lemma TagIs(f: BlockFunction, s: Schedule)
    requires Helix.IsBlock(f) && s == Plain(f, K, N, 5)
    ensures Mac(s, Stream(State(0xec68abae, 0xa93640b0, 0x2e96db5f, 0xab54a0d5, 0x418396ee), 12), 13) ==
      (Stream(State(0xeecce7de, 0xc28cd36c, 0x9c6d1c67, 0x42637fd5, 0x384ff60), 24), TAG)
  {
    TagBlocks(f, s);
    assert Repeat(Low(13 % 4), 12) == ONES + ONES + ONES by {
      assert 13 % 4 == 1 && Low(1) == 1;
    }
    TagOctets();
  }

  const ONES: seq<word> := [1, 1, 1, 1]

  lemma TagBlocks(f: BlockFunction, s: Schedule)
    requires Helix.IsBlock(f) && s == Plain(f, K, N, 5)
    ensures var (end, ks) := Run(s, Stream(State(0x7d453f5f, 0xa93640b0, 0x2e96db5f, 0xab54a0d5, 0x418396ee), 12), ONES + ONES + ONES);
      |ks| == 12 && end == Stream(State(0xeecce7de, 0xc28cd36c, 0x9c6d1c67, 0x42637fd5, 0x384ff60), 24) && ks[8..] == [0xaad1826c, 0x125f903b, 0xa73f44f1, 0xd201a1f6]
  {
    Keys3(f);
    Keys4(f);
    Keys5(f);
    Blocks3(s);
    Blocks4(s);
    Blocks5(s);
    RunOfTwo(s, Stream(State(0x7d453f5f, 0xa93640b0, 0x2e96db5f, 0xab54a0d5, 0x418396ee), 12), ONES, ONES);
    RunOfTwo(s, Stream(State(0x7d453f5f, 0xa93640b0, 0x2e96db5f, 0xab54a0d5, 0x418396ee), 12), ONES + ONES, ONES);
  }

  lemma TagOctets()
    ensures Octets([0xaad1826c, 0x125f903b, 0xa73f44f1, 0xd201a1f6]) == TAG
  {
    var ws: seq<word> := [0xaad1826c, 0x125f903b, 0xa73f44f1, 0xd201a1f6];
    TagParts();
    forall i | 0 <= i < 4 ensures ToLE(ws[i]) == TAG[4 * i..4 * i + 4] {
      assert i == 0 || i == 1 || i == 2 || i == 3;
    }
    OctetsAre(ws, TAG);
  }

  lemma TagParts()
    ensures ToLE(0xaad1826c) == TAG[0..4]
    ensures ToLE(0x125f903b) == TAG[4..8]
    ensures ToLE(0xa73f44f1) == TAG[8..12]
    ensures ToLE(0xd201a1f6) == TAG[12..16]
  {
    assert TAG[0..4] == [0x6c, 0x82, 0xd1, 0xaa];
    assert TAG[4..8] == [0x3b, 0x90, 0x5f, 0x12];
    assert TAG[8..12] == [0xf1, 0x44, 0x3f, 0xa7];
    assert TAG[12..16] == [0xf6, 0xa1, 1, 0xd2];
  }

  /** The plain schedule gives the published ciphertext and tag. */
  lemma PlainVector(f: BlockFunction)
    requires Helix.IsBlock(f)
    ensures var sealed := Seal(Plain(f, K, N, 5), K, N, TEXT); sealed.text == CIPHERTEXT && sealed.mac == TAG
  {
    var s := Plain(f, K, N, 5);
    MessageKeystream(f, s);
    TagIs(f, s);
  }

  /** And so does that of helix.c, from the octets of key and nonce on. */
  lemma KnownAnswer(f: BlockFunction)
    requires Helix.IsBlock(f)
    ensures var k, n := WorkingKey(f, KEY), Helix.NonceWords(NONCE);
      var sealed := Seal(OptimizedFor(f, k, n, |KEY|), k, n, TEXT);
      sealed.text == CIPHERTEXT && sealed.mac == TAG
  {
    WorkingKeyIs(f);
    NonceWordsAre();
    PlainVector(f);
    SealAgrees(f, K, N, 5, TEXT);
  }

  /** helix.c itself on this key, nonce and message. */
  method SealVector(ghost f: BlockFunction) returns (c: array<octet>, m: array<octet>)
    requires Helix.IsBlock(f)
    ensures c[..] == CIPHERTEXT && m[..] == TAG
  {
    KnownAnswer(f);
    c, m := Helix.SealUnderKey(KEY, NONCE, TEXT, f);
  }
}
