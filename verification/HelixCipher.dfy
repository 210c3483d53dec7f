/** Helix as a stream cipher with a MAC, on values.

    One definition of the cipher serves two key schedules: the Plain one of "Helix: Fast
    Encryption and Authentication in a Single Cryptographic Primitive", section 3.3, with an
    explicit block index, and the Optimized one of helix.c, which keeps x1 biased by -2^31,
    counts from 2^31 and reads the upper half of a 64-bit counter. */
module HelixCipher {
  import opened Words
  import opened HelixBlock
  import opened HelixKey

  const BIAS: nat := 0x8000_0000
  const MAGIC: word := 0x912d94f1
  const SETUP_BLOCKS := 8
  const MAC_BLOCKS := 12

  /** A key schedule gives the two key words of the block with counter i. */
  datatype Schedule = Schedule(f: BlockFunction, start: nat, x0: nat -> word, x1: nat -> word)

  /** The schedule of section 3.3; the counter is the paper's index plus 8. */
  function Plain(f: BlockFunction, k: seq<word>, n: seq<word>, l: nat): Schedule
    requires |k| == |n| == 8
  {
    Schedule(f, 0, (j: nat) => k[j % 8], (j: nat) => PlainX1(k, n, l, j))
  }

  function PlainX1(k: seq<word>, n: seq<word>, l: nat, j: nat): word
    requires |k| == |n| == 8
  {
    Add(Add(Add(k[(j + 4) % 8], n[j % 8]), Extra(l, j)), Low(j))
  }

  /** X'_i of section 3.3, as a function of i + 8. */
  function Extra(l: nat, j: nat): word {
    if j % 4 == 3 then Low(j / BIAS) else if j % 4 == 1 then Low(4 * l) else 0
  }

  /** The schedule of helix_block: x1 already holds everything but the counter. */
  function Optimized(f: BlockFunction, x0: seq<word>, x1: seq<word>): Schedule
    requires |x0| == |x1| == 8
  {
    Schedule(f, BIAS, (i: nat) => x0[i % 8], (i: nat) => OptimizedX1(x1, i))
  }

  function OptimizedX1(x1: seq<word>, i: nat): word
    requires |x1| == 8
  {
    var x := Add(x1[i % 8], Low(i));
    if i % 4 == 3 then Add(x, Low(i / W32)) else x
  }

  datatype Stream = Stream(z: State, i: nat)

  /** One block; uint64_t wraps. */
  function Step(s: Schedule, st: Stream, p: word): Stream
  {
    Stream(s.f(st.z, s.x0(st.i), s.x1(st.i), p), (st.i + 1) % W64)
  }

  /** Feed a list of plaintext words to the block function, collecting the keystream. */
  function Run(s: Schedule, st: Stream, ps: seq<word>): (r: (Stream, seq<word>))
    ensures |r.1| == |ps|
    decreases |ps|
  {
    if ps == [] then (st, [])
    else
      var (end, ks) := Run(s, Step(s, st, ps[0]), ps[1..]);
      (end, [st.z.z0] + ks)
  }

  // ---- messages -----------------------------------------------------------

  function Chunk(s: seq<octet>): (c: seq<octet>)
    requires s != []
    ensures 0 < |c| <= 4 && c <= s
  {
    if |s| < 4 then s else s[..4]
  }

  datatype Direction = Sealing | Opening

  /** The plaintext octets of a chunk of input under the keystream word k. */
  function Fed(dir: Direction, c: seq<octet>, k: word): (p: seq<octet>)
    requires |c| <= 4
    ensures |p| == |c|
  {
    if dir.Sealing? then c else XorOctets(c, ToLE(k))
  }

  /** One pass over a message. The keystream octets are xored with the input; it is always
      the plaintext word, the last one zero-extended, that enters the state, so opening must
      recover it first. */
  function Crypt(dir: Direction, s: Schedule, st: Stream, x: seq<octet>): (r: (Stream, seq<octet>))
    ensures |r.1| == |x|
    decreases |x|
  {
    if x == [] then (st, [])
    else
      var c := Chunk(x);
      var (end, rest) := Crypt(dir, s, Step(s, st, FromLE(Fed(dir, c, st.z.z0))), x[|c|..]);
      (end, XorOctets(c, ToLE(st.z.z0)) + rest)
  }

  function Encrypt(s: Schedule, st: Stream, p: seq<octet>): (r: (Stream, seq<octet>))
    ensures |r.1| == |p|
  {
    Crypt(Sealing, s, st, p)
  }

  function Decrypt(s: Schedule, st: Stream, c: seq<octet>): (r: (Stream, seq<octet>))
    ensures |r.1| == |c|
  {
    Crypt(Opening, s, st, c)
  }

  function Repeat(w: word, n: nat): (r: seq<word>)
    ensures |r| == n
  {
    seq(n, _ => w)
  }

  /** Eight blocks to mix, then four keystream words as the tag. */
  function Mac(s: Schedule, st: Stream, len: nat): (r: (Stream, seq<octet>))
    ensures |r.1| == 16
  {
    var (end, ks) := Run(s, st.(z := st.z.(z0 := Xor(st.z.z0, MAGIC))), Repeat(Low(len % 4), MAC_BLOCKS));
    (end, Octets(ks[8..]))
  }

  function Initial(k: seq<word>, n: seq<word>): State
    requires |k| == |n| == 8
  {
    State(Xor(k[3], n[0]), Xor(k[4], n[1]), Xor(k[5], n[2]), Xor(k[6], n[3]), k[7])
  }

  /** The stream before the first message word: eight blocks with a zero plaintext. */
  function Setup(s: Schedule, k: seq<word>, n: seq<word>): Stream
    requires |k| == |n| == 8
  {
    Run(s, Stream(Initial(k, n), s.start), Repeat(0, SETUP_BLOCKS)).0
  }

  datatype Sealed = Sealed(text: seq<octet>, mac: seq<octet>, end: Stream)

  /** helix_nonce followed by helix_encrypt. */
  function Seal(s: Schedule, k: seq<word>, n: seq<word>, p: seq<octet>): Sealed
    requires |k| == |n| == 8
  {
    var (st, c) := Encrypt(s, Setup(s, k, n), p);
    var (end, mac) := Mac(s, st, |p|);
    Sealed(c, mac, end)
  }

  /** helix_nonce followed by helix_decrypt. */
  function Open(s: Schedule, k: seq<word>, n: seq<word>, c: seq<octet>): Sealed
    requires |k| == |n| == 8
  {
    var (st, p) := Decrypt(s, Setup(s, k, n), c);
    var (end, mac) := Mac(s, st, |c|);
    Sealed(p, mac, end)
  }

  // ---- what the tag is made of --------------------------------------------

  lemma {:induction false} RunOfIdentity(s: Schedule, st: Stream, ps: seq<word>)
    requires forall z, x0, x1, p :: s.f(z, x0, x1, p) == z
    ensures forall j | 0 <= j < |ps| :: Run(s, st, ps).1[j] == st.z.z0
    decreases |ps|
  {
    if ps != [] {
      RunOfIdentity(s, Step(s, st, ps[0]), ps[1..]);
    }
  }

  lemma {:induction false} RunOfCopy(s: Schedule, st: Stream, p: word, n: nat)
    requires forall z, x0, x1, q :: s.f(z, x0, x1, q) == z.(z0 := q)
    ensures forall j | 0 < j < n :: Run(s, st, Repeat(p, n)).1[j] == p
    ensures n > 0 ==> Run(s, st, Repeat(p, n)).1[0] == st.z.z0
    decreases n
  {
    if n > 0 {
      assert Repeat(p, n)[1..] == Repeat(p, n - 1);
      RunOfCopy(s, Step(s, st, p), p, n - 1);
    }
  }

  lemma OctetsOfSame(ws: seq<word>, w: word)
    requires |ws| == 4 && forall j | 0 <= j < 4 :: ws[j] == w
    ensures Octets(ws) == ToLE(w) + ToLE(w) + ToLE(w) + ToLE(w)
  {
    var t := ToLE(w);
    var o := t + t + t + t;
    assert o[0..4] == t && o[4..8] == t && o[8..12] == t && o[12..16] == t;
    forall i | 0 <= i < 4 ensures ToLE(ws[i]) == o[4 * i..4 * i + 4] {
      assert i == 0 || i == 1 || i == 2 || i == 3;
    }
    OctetsAre(ws, o);
  }

  /** A block function that does nothing shows what the tag starts from: the first state word with
      the magic number in it. */
  lemma TagShowsMagic(s: Schedule, st: Stream, len: nat)
    requires forall z, x0, x1, p :: s.f(z, x0, x1, p) == z
    ensures var t := ToLE(Xor(st.z.z0, 0x912d94f1)); Mac(s, st, len).1 == t + t + t + t
  {
    var w, ps := Xor(st.z.z0, 0x912d94f1), Repeat(Low(len % 4), 12);
    var st' := st.(z := st.z.(z0 := w));
    RunOfIdentity(s, st', ps);
    OctetsOfSame(Run(s, st', ps).1[8..], w);
  }

  /** A block function that copies its plaintext shows what the tag is fed: the length of the last
      word. */
  lemma TagShowsLength(s: Schedule, st: Stream, len: nat)
    requires forall z, x0, x1, p :: s.f(z, x0, x1, p) == z.(z0 := p)
    ensures var t := ToLE(Low(len % 4)); Mac(s, st, len).1 == t + t + t + t
  {
    var w := Low(len % 4);
    var st' := st.(z := st.z.(z0 := Xor(st.z.z0, MAGIC)));
    RunOfCopy(s, st', w, 12);
    OctetsOfSame(Run(s, st', Repeat(w, 12)).1[8..], w);
  }

  // ---- decryption undoes encryption ---------------------------------------

  /** Output has its chunks where the input has them. */
  lemma SameChunk(p: seq<octet>, a: seq<octet>, rest: seq<octet>)
    requires p != [] && |a| == |Chunk(p)| && |a + rest| == |p|
    ensures a + rest != [] && Chunk(a + rest) == a && (a + rest)[|a|..] == rest
  {
  }

  /** The first chunk q of a pass, and what is left after it. */
  lemma CryptUnfold(dir: Direction, s: Schedule, st: Stream, x: seq<octet>, q: seq<octet>, next: Stream, out: seq<octet>)
    requires x != [] && q == Chunk(x) && out == XorOctets(q, ToLE(st.z.z0))
    requires next == Step(s, st, FromLE(Fed(dir, q, st.z.z0)))
    ensures var (end, rest) := Crypt(dir, s, next, x[|q|..]);
      Crypt(dir, s, st, x) == (end, out + rest)
  {
  }

  lemma {:induction false} DecryptUndoesEncrypt(s: Schedule, st: Stream, p: seq<octet>)
    ensures var (end, c) := Encrypt(s, st, p); Decrypt(s, st, c) == (end, p)
    decreases |p|
  {
    if p == [] {
    } else {
      var a, k := Chunk(p), ToLE(st.z.z0);
      var next := Step(s, st, FromLE(a));
      var (end, rest) := Encrypt(s, next, p[|a|..]);
      var c := XorOctets(a, k) + rest;
      SameChunk(p, XorOctets(a, k), rest);
      XorOctetsCancel(a, k);
      DecryptUndoesEncrypt(s, next, p[|a|..]);
      assert c[|a|..] == rest;
      assert p == a + p[|a|..];
    }
  }

  /** The whole round trip, partial last words included: the plaintext, the tag and the
      final stream come back. */
  lemma OpenUndoesSeal(s: Schedule, k: seq<word>, n: seq<word>, p: seq<octet>)
    requires |k| == |n| == 8
    ensures var sealed := Seal(s, k, n, p);
      Open(s, k, n, sealed.text) == Sealed(p, sealed.mac, sealed.end)
  {
    DecryptUndoesEncrypt(s, Setup(s, k, n), p);
  }

  // ---- the ciphertext is plaintext xor keystream --------------------------

  /** The message as words, the last one zero-extended. */
  function MessageWords(p: seq<octet>): (ws: seq<word>)
    ensures |ws| == (|p| + 3) / 4
    decreases |p|
  {
    if p == [] then [] else [FromLE(Chunk(p))] + MessageWords(p[|Chunk(p)|..])
  }

  lemma XorOctetsAppend(a: seq<octet>, b: seq<octet>, x: seq<octet>, y: seq<octet>)
    requires (|a| == |x| && |b| <= |y|) || (|a| <= |x| && b == [])
    ensures XorOctets(a + b, x + y) == XorOctets(a, x) + XorOctets(b, y)
  {
  }

  lemma {:induction false} EncryptIsKeystreamXor(s: Schedule, st: Stream, p: seq<octet>)
    ensures var (end, ks) := Run(s, st, MessageWords(p));
      Encrypt(s, st, p) == (end, XorOctets(p, Octets(ks)))
    decreases |p|
  {
    if p == [] {
    } else {
      var c := Chunk(p);
      var q := p[|c|..];
      var ws := MessageWords(p);
      assert ws[0] == FromLE(c) && ws[1..] == MessageWords(q);
      var next := Step(s, st, ws[0]);
      EncryptIsKeystreamXor(s, next, q);
      var ks := Run(s, next, ws[1..]).1;
      assert ([st.z.z0] + ks)[1..] == ks;
      assert p == c + q;
      XorOctetsAppend(c, q, ToLE(st.z.z0), Octets(ks));
    }
  }

  // ---- the two schedules compute the same cipher --------------------------

  /** x1 of helix_nonce: the constant part of the key words, biased by -2^31. */
  function BiasedX1(k: seq<word>, n: seq<word>, l: nat): (x1: seq<word>)
    requires |k| == |n| == 8
    ensures |x1| == 8
  {
    seq(8, i requires 0 <= i < 8 =>
      Sub(Add(Add(k[(i + 4) % 8], n[i]), if i % 4 == 1 then Low(4 * l) else 0), Low(BIAS)))
  }

  function OptimizedFor(f: BlockFunction, k: seq<word>, n: seq<word>, l: nat): Schedule
    requires |k| == |n| == 8
  {
    Optimized(f, k, BiasedX1(k, n, l))
  }

  /** The two biases cancel: adding the counter to the biased word adds the block index. */
  lemma BiasCancels(x: word, j: nat)
    ensures Add(Sub(x, Low(BIAS)), Low(j + BIAS)) == Add(x, Low(j))
  {
    LowAdd(BIAS, j);
    AddAssociative(Sub(x, Low(BIAS)), Low(BIAS), Low(j));
    AddCancel(x, Low(BIAS));
  }

  lemma HighHalf(j: nat)
    requires j < W32
    ensures (j + BIAS) / W32 == j / BIAS
  {
  }

  lemma IndexAgrees(j: nat)
    ensures (j + BIAS) % 8 == j % 8 && (j + BIAS) % 4 == j % 4
    ensures (j % 8 + 4) % 8 == (j + 4) % 8 && (j % 8) % 4 == j % 4
  {
  }

  lemma AddSwap(a: word, b: word, c: word)
    ensures Add(Add(a, b), c) == Add(Add(a, c), b)
  {
    AddAssociative(a, b, c);
    AddAssociative(a, c, b);
    AddCommutes(b, c);
  }

  /** What both schedules have in common: everything but the bits 31..62 of i + 8. */
  function Common(k: seq<word>, n: seq<word>, l: nat, j: nat): word
    requires |k| == |n| == 8
  {
    Add(Add(Add(k[(j + 4) % 8], n[j % 8]), if j % 4 == 1 then Low(4 * l) else 0), Low(j))
  }

  lemma OptimizedIsCommon(k: seq<word>, n: seq<word>, l: nat, j: nat)
    requires |k| == |n| == 8
    ensures Add(BiasedX1(k, n, l)[(j + BIAS) % 8], Low(j + BIAS)) == Common(k, n, l, j)
  {
    IndexAgrees(j);
    BiasCancels(Add(Add(k[(j + 4) % 8], n[j % 8]), if j % 4 == 1 then Low(4 * l) else 0), j);
  }

  lemma PlainIsCommon(k: seq<word>, n: seq<word>, l: nat, j: nat)
    requires |k| == |n| == 8
    ensures var c := Common(k, n, l, j);
      PlainX1(k, n, l, j) == if j % 4 == 3 then Add(c, Low(j / BIAS)) else c
  {
    var base := Add(k[(j + 4) % 8], n[j % 8]);
    AddZero(base);
    AddSwap(base, Low(j), Low(j / BIAS));
  }

  /** The key words of block j (the paper's index j - 8) agree as long as j < 2^32. */
  lemma KeyWordsAgree(k: seq<word>, n: seq<word>, l: nat, j: nat)
    requires |k| == |n| == 8 && j < W32
    ensures (j + BIAS) % 8 == j % 8
    ensures OptimizedX1(BiasedX1(k, n, l), j + BIAS) == PlainX1(k, n, l, j)
  {
    IndexAgrees(j);
    HighHalf(j);
    OptimizedIsCommon(k, n, l, j);
    PlainIsCommon(k, n, l, j);
  }

  /** b at a biased counter has the key words of a, for every block with i + 8 < 2^32. */
  ghost predicate Agree(a: Schedule, b: Schedule) {
    && a.f == b.f
    && forall j: nat {:trigger a.x0(j)} {:trigger a.x1(j)} | j < W32 :: b.x0(j + BIAS) == a.x0(j) && b.x1(j + BIAS) == a.x1(j)
  }

  lemma SchedulesAgree(f: BlockFunction, k: seq<word>, n: seq<word>, l: nat)
    requires |k| == |n| == 8
    ensures Agree(Plain(f, k, n, l), OptimizedFor(f, k, n, l))
  {
    var a, b := Plain(f, k, n, l), OptimizedFor(f, k, n, l);
    forall j: nat {:trigger a.x0(j)} {:trigger a.x1(j)} | j < W32
      ensures b.x0(j + BIAS) == a.x0(j) && b.x1(j + BIAS) == a.x1(j)
    {
      KeyWordsAgree(k, n, l, j);
    }
  }

  lemma StepAgrees(a: Schedule, b: Schedule, st: Stream, p: word)
    requires Agree(a, b) && st.i < W32
    ensures Step(a, st, p).i == st.i + 1
    ensures Step(b, st.(i := st.i + BIAS), p) == Step(a, st, p).(i := st.i + 1 + BIAS)
  {
  }

  lemma {:induction false} RunAgrees(a: Schedule, b: Schedule, st: Stream, ps: seq<word>)
    requires Agree(a, b) && st.i + |ps| <= W32
    ensures var (end, ks) := Run(a, st, ps);
      end.i == st.i + |ps| && Run(b, st.(i := st.i + BIAS), ps) == (end.(i := end.i + BIAS), ks)
    decreases |ps|
  {
    if ps != [] {
      StepAgrees(a, b, st, ps[0]);
      RunAgrees(a, b, Step(a, st, ps[0]), ps[1..]);
    }
  }

  /** helix.c encrypts as section 3.3 does, every message whose blocks all have i + 8 < 2^32:
      same ciphertext, same tag, same final state words. */
  lemma SealAgrees(f: BlockFunction, k: seq<word>, n: seq<word>, l: nat, p: seq<octet>)
    requires |k| == |n| == 8
    requires SETUP_BLOCKS + (|p| + 3) / 4 + MAC_BLOCKS <= W32
    ensures var a, b := Seal(Plain(f, k, n, l), k, n, p), Seal(OptimizedFor(f, k, n, l), k, n, p);
      a.text == b.text && a.mac == b.mac && a.end.z == b.end.z
  {
    SchedulesAgree(f, k, n, l);
    var a, b := Plain(f, k, n, l), OptimizedFor(f, k, n, l);
    SetupAgrees(a, b, k, n);
    PassAgrees(Sealing, a, b, Setup(a, k, n), p);
  }

  /** And it decrypts as section 3.3 does, whatever octets arrive. */
  lemma OpenAgrees(f: BlockFunction, k: seq<word>, n: seq<word>, l: nat, c: seq<octet>)
    requires |k| == |n| == 8
    requires SETUP_BLOCKS + (|c| + 3) / 4 + MAC_BLOCKS <= W32
    ensures var a, b := Open(Plain(f, k, n, l), k, n, c), Open(OptimizedFor(f, k, n, l), k, n, c);
      a.text == b.text && a.mac == b.mac && a.end.z == b.end.z
  {
    SchedulesAgree(f, k, n, l);
    var a, b := Plain(f, k, n, l), OptimizedFor(f, k, n, l);
    SetupAgrees(a, b, k, n);
    PassAgrees(Opening, a, b, Setup(a, k, n), c);
  }

  lemma SetupAgrees(a: Schedule, b: Schedule, k: seq<word>, n: seq<word>)
    requires |k| == |n| == 8 && Agree(a, b) && a.start == 0 && b.start == BIAS
    ensures var st := Setup(a, k, n); st.i == SETUP_BLOCKS && Setup(b, k, n) == st.(i := st.i + BIAS)
  {
    RunAgrees(a, b, Stream(Initial(k, n), 0), Repeat(0, SETUP_BLOCKS));
  }

  /** Message and MAC, in either direction: at biased counters, the same output and the same
      state words. */
  lemma PassAgrees(dir: Direction, a: Schedule, b: Schedule, st: Stream, x: seq<octet>)
    requires Agree(a, b) && st.i + (|x| + 3) / 4 + MAC_BLOCKS <= W32
    ensures var (now, y), (now', y') := Crypt(dir, a, st, x), Crypt(dir, b, st.(i := st.i + BIAS), x);
      var (end, mac), (end', mac') := Mac(a, now, |x|), Mac(b, now', |x|);
      y' == y && mac' == mac && end'.z == end.z
  {
    CryptAgrees(dir, a, b, st, x);
    EndsAgree(a, b, Crypt(dir, a, st, x).0, Crypt(dir, b, st.(i := st.i + BIAS), x).0, |x|);
  }

  lemma EndsAgree(a: Schedule, b: Schedule, now: Stream, now': Stream, len: nat)
    requires Agree(a, b) && now.i + MAC_BLOCKS <= W32 && now' == now.(i := now.i + BIAS)
    ensures var (end, mac), (end', mac') := Mac(a, now, len), Mac(b, now', len);
      mac' == mac && end'.z == end.z
  {
    MacAgrees(a, b, now, len);
  }

  lemma ChunkCount(x: seq<octet>)
    requires x != []
    ensures (|x| + 3) / 4 == 1 + (|x[|Chunk(x)|..]| + 3) / 4
  {
  }

  lemma {:induction false} CryptAgrees(dir: Direction, a: Schedule, b: Schedule, st: Stream, x: seq<octet>)
    requires Agree(a, b) && st.i + (|x| + 3) / 4 <= W32
    ensures var (end, y) := Crypt(dir, a, st, x);
      end.i == st.i + (|x| + 3) / 4 && Crypt(dir, b, st.(i := st.i + BIAS), x) == (end.(i := end.i + BIAS), y)
    decreases |x|
  {
    if x != [] {
      ChunkCount(x);
      var c, out := Chunk(x), XorOctets(Chunk(x), ToLE(st.z.z0));
      var p := FromLE(Fed(dir, c, st.z.z0));
      var next, next' := Step(a, st, p), Step(b, st.(i := st.i + BIAS), p);
      StepAgrees(a, b, st, p);
      CryptAgrees(dir, a, b, next, x[|c|..]);
      CryptUnfold(dir, a, st, x, c, next, out);
      CryptUnfold(dir, b, st.(i := st.i + BIAS), x, c, next', out);
    }
  }

  lemma MacAgrees(a: Schedule, b: Schedule, st: Stream, len: nat)
    requires Agree(a, b) && st.i + MAC_BLOCKS <= W32
    ensures var (end, mac) := Mac(a, st, len);
      Mac(b, st.(i := st.i + BIAS), len) == (end.(i := end.i + BIAS), mac)
  {
    RunAgrees(a, b, st.(z := st.z.(z0 := Xor(st.z.z0, MAGIC))), Repeat(Low(len % 4), MAC_BLOCKS));
  }

  // ---- the exact limit of the counter trick -------------------------------

  /** The upper half of the biased counter is the paper's bits 31..62 exactly below 2^32. */
  lemma HighHalfExact(j: nat)
    requires j + BIAS < W64
    ensures (j + BIAS) / W32 == j / BIAS <==> j < W32
    ensures 0 <= j / BIAS - (j + BIAS) / W32 < W32
  {
    var q := j / BIAS;
    assert (j + BIAS) / W32 == (q + 1) / 2 by {
      assert j + BIAS == BIAS * (q + 1) + j % BIAS;
      assert W32 == 2 * BIAS;
    }
  }

  lemma OptimizedParts(k: seq<word>, n: seq<word>, l: nat, j: nat)
    requires |k| == |n| == 8
    ensures var c := Common(k, n, l, j);
      OptimizedX1(BiasedX1(k, n, l), j + BIAS) == if j % 4 == 3 then Add(c, Low((j + BIAS) / W32)) else c
  {
    IndexAgrees(j);
    OptimizedIsCommon(k, n, l, j);
  }

  /** Without a bound the second key word of block j is the paper's exactly when j mod 4 is
      not 3 or j < 2^32. */
  lemma SecondKeyWordExact(k: seq<word>, n: seq<word>, l: nat, j: nat)
    requires |k| == |n| == 8 && j + BIAS < W64
    ensures OptimizedX1(BiasedX1(k, n, l), j + BIAS) == PlainX1(k, n, l, j) <==> j % 4 != 3 || j < W32
  {
    OptimizedParts(k, n, l, j);
    PlainIsCommon(k, n, l, j);
    SumsDiffer(Common(k, n, l, j), j);
  }

  lemma SumsDiffer(c: word, j: nat)
    requires j + BIAS < W64
    ensures Add(c, Low((j + BIAS) / W32)) == Add(c, Low(j / BIAS)) <==> j < W32
  {
    HighHalfExact(j);
    SumsSame(c, (j + BIAS) / W32, j / BIAS);
  }

  lemma SumsSame(c: word, g: nat, h: nat)
    requires 0 <= h - g < W32
    ensures Add(c, Low(g)) == Add(c, Low(h)) <==> g == h
  {
    LeftCancel(c, Low(g), Low(h));
    if Low(g) == Low(h) {
      LowInjective(g, h);
    }
  }

  lemma LeftCancel(a: word, g: word, h: word)
    ensures Add(a, g) == Add(a, h) ==> g == h
  {
    AddCommutes(a, g);
    AddCommutes(a, h);
    AddCancel(g, a);
    AddCancel(h, a);
  }

  // ---- tampering with one word --------------------------------------------

  ghost predicate InjectiveInState(f: BlockFunction) {
    forall a, b, x0, x1, p :: f(a, x0, x1, p) == f(b, x0, x1, p) ==> a == b
  }

  ghost predicate InjectiveInPlaintext(f: BlockFunction) {
    forall z, x0, x1, p, q :: f(z, x0, x1, p) == f(z, x0, x1, q) ==> p == q
  }

  lemma BlockIsInjective()
    ensures InjectiveInState(Block) && InjectiveInPlaintext(Block)
  {
    forall a, b, x0, x1, p | Block(a, x0, x1, p) == Block(b, x0, x1, p) ensures a == b {
      BlockBijective(a, x0, x1, p);
      BlockBijective(b, x0, x1, p);
    }
    forall z, x0, x1, p, q | Block(z, x0, x1, p) == Block(z, x0, x1, q) ensures p == q {
      BlockInjectiveInPlaintext(z, x0, x1, p, q);
    }
  }

  lemma StatesStayApart(f: BlockFunction, a: State, b: State, x0: word, x1: word, p: word)
    requires InjectiveInState(f) && a != b
    ensures f(a, x0, x1, p) != f(b, x0, x1, p)
  {
  }

  lemma PlaintextsStayApart(f: BlockFunction, z: State, x0: word, x1: word, p: word, q: word)
    requires InjectiveInPlaintext(f) && p != q
    ensures f(z, x0, x1, p) != f(z, x0, x1, q)
  {
  }

  lemma {:induction false} RunInjectiveInState(s: Schedule, a: Stream, b: Stream, ps: seq<word>)
    requires InjectiveInState(s.f) && a.z != b.z && a.i == b.i
    ensures Run(s, a, ps).0.z != Run(s, b, ps).0.z
    decreases |ps|
  {
    if ps == [] {
    } else {
      StatesStayApart(s.f, a.z, b.z, s.x0(a.i), s.x1(a.i), ps[0]);
      RunInjectiveInState(s, Step(s, a, ps[0]), Step(s, b, ps[0]), ps[1..]);
    }
  }

  lemma {:induction false} RunCounter(s: Schedule, a: Stream, b: Stream, ps: seq<word>, qs: seq<word>)
    requires |ps| == |qs| && a.i == b.i
    ensures Run(s, a, ps).0.i == Run(s, b, qs).0.i
    decreases |ps|
  {
    if ps == [] {
    } else {
      RunCounter(s, Step(s, a, ps[0]), Step(s, b, qs[0]), ps[1..], qs[1..]);
    }
  }

  ghost predicate DifferOnlyAt(ps: seq<word>, qs: seq<word>, d: nat) {
    && |ps| == |qs| && d < |ps| && ps[d] != qs[d]
    && forall i | 0 <= i < |ps| && i != d :: ps[i] == qs[i]
  }

  /** Two word lists that differ in exactly one place lead to different states. */
  lemma {:induction false} RunDiffersInOneWord(s: Schedule, st: Stream, ps: seq<word>, qs: seq<word>, d: nat)
    requires InjectiveInState(s.f) && InjectiveInPlaintext(s.f)
    requires DifferOnlyAt(ps, qs, d)
    ensures Run(s, st, ps).0.z != Run(s, st, qs).0.z
    decreases |ps|
  {
    if d == 0 {
      assert ps[1..] == qs[1..];
      PlaintextsStayApart(s.f, st.z, s.x0(st.i), s.x1(st.i), ps[0], qs[0]);
      RunInjectiveInState(s, Step(s, st, ps[0]), Step(s, st, qs[0]), ps[1..]);
    } else {
      RunDiffersInOneWord(s, Step(s, st, ps[0]), ps[1..], qs[1..], d - 1);
    }
  }

  /** Under one key and nonce, two messages of one length that differ in exactly one word
      reach the MAC in different states and still differ after its twelve blocks. */
  lemma OneWordChangesFinalState(s: Schedule, k: seq<word>, n: seq<word>, p: seq<octet>, q: seq<octet>, d: nat)
    requires s.f == Block && |k| == |n| == 8 && |p| == |q|
    requires DifferOnlyAt(MessageWords(p), MessageWords(q), d)
    ensures var st := Setup(s, k, n); Encrypt(s, st, p).0.z != Encrypt(s, st, q).0.z
    ensures Seal(s, k, n, p).end.z != Seal(s, k, n, q).end.z
  {
    BlockIsInjective();
    OneWordChangesFinalStateFor(s, k, n, p, q, d);
  }

  lemma OneWordChangesFinalStateFor(s: Schedule, k: seq<word>, n: seq<word>, p: seq<octet>, q: seq<octet>, d: nat)
    requires InjectiveInState(s.f) && InjectiveInPlaintext(s.f)
    requires |k| == |n| == 8 && |p| == |q|
    requires DifferOnlyAt(MessageWords(p), MessageWords(q), d)
    ensures var st := Setup(s, k, n); Encrypt(s, st, p).0.z != Encrypt(s, st, q).0.z
    ensures Seal(s, k, n, p).end.z != Seal(s, k, n, q).end.z
  {
    var st := Setup(s, k, n);
    var ps, qs := MessageWords(p), MessageWords(q);
    RunDiffersInOneWord(s, st, ps, qs, d);
    RunCounter(s, st, st, ps, qs);
    EncryptIsKeystreamXor(s, st, p);
    EncryptIsKeystreamXor(s, st, q);
    var a, b := Encrypt(s, st, p).0, Encrypt(s, st, q).0;
    XorCancel(a.z.z0, MAGIC);
    XorCancel(b.z.z0, MAGIC);
    var a', b' := a.z.(z0 := Xor(a.z.z0, MAGIC)), b.z.(z0 := Xor(b.z.z0, MAGIC));
    assert a' != b';
    RunInjectiveInState(s, a.(z := a'), b.(z := b'), Repeat(Low(|p| % 4), MAC_BLOCKS));
  }
}
