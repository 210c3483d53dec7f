/** helix.c as written: contexts updated in place, buffers that may be shared, and a
    64-bit counter kept with a bias of 2^31. Each routine is specified by the functions of
    HelixBlock, HelixKey and HelixCipher. */
module Helix {
  import opened Words
  import Sequences
  import opened HelixBlock
  import Key = HelixKey
  import Cipher = HelixCipher

  const NONCE_LEN := 16
  const MAC_LEN := 16

  /** helix_scontext_t. */
  class StaticContext {
    var magic: word
    var l: nat
    const k: array<word>
    const x0: array<word>

    constructor ()
      ensures Valid() && fresh(k) && fresh(x0)
    {
      magic, l := 0, 0;
      k := new word[8](_ => 0);
      x0 := new word[8](_ => 0);
    }

    predicate Valid() {
      k != x0 && k.Length == x0.Length == 8
    }

    /** The context holds a key of length l with working key w. */
    ghost predicate Holds(w: seq<word>)
      reads this, k, x0
    {
      Valid() && magic == Cipher.MAGIC && k[..] == x0[..] == w
    }
  }

  /** helix_dcontext_t; iplus8hp is the function High of iplus8. */
  class DynamicContext {
    const n: array<word>
    const z: array<word>
    const x1: array<word>
    var iplus8: nat

    constructor ()
      ensures Valid() && fresh(n) && fresh(z) && fresh(x1)
      ensures iplus8 == 0
    {
      n := new word[8](_ => 0);
      z := new word[5](_ => 0);
      x1 := new word[8](_ => 0);
      iplus8 := 0;
    }

    predicate Valid()
      reads this
    {
      n != x1 && n.Length == x1.Length == 8 && z.Length == 5 && iplus8 < W64
    }

    ghost function Stream(): Cipher.Stream
      reads this, z
      requires Valid()
    {
      Cipher.Stream(State(z[0], z[1], z[2], z[3], z[4]), iplus8)
    }
  }

  ghost predicate Apart(s: StaticContext, d: DynamicContext)
    reads d
  {
    s.Valid() && d.Valid() && {s.k, s.x0} !! {d.n, d.z, d.x1}
  }

  /** f is the block function; callers reason about f alone. */
  ghost predicate IsBlock(f: Key.BlockFunction) {
    forall z, x0, x1, p {:trigger Block(z, x0, x1, p)} :: f(z, x0, x1, p) == Block(z, x0, x1, p)
  }

  /** The 20 rounds on the five registers. */
  method Rounds(z: State, x0: word, x1: word, p: word, ghost f: Key.BlockFunction) returns (r: State)
    requires IsBlock(f)
    ensures r == f(z, x0, x1, p)
  {
    var z0, z1, z2, z3, z4 := z.z0, z.z1, z.z2, z.z3, z.z4;
    XorZero(z3);

    z0 := Add(z0, z3);          z3 := Rol(z3, 15);
    z1 := Add(z1, z4);          z4 := Rol(z4, 25);
    z2 := Xor(z2, z0);          z0 := Rol(z0, 9);
    z3 := Xor(z3, z1);          z1 := Rol(z1, 10);
    z4 := Add(z4, z2);          z2 := Rol(z2, 17);
    ghost var a := State(z0, z1, z2, z3, z4);
    assert a == AddHalf(z, 0);

    z0 := Xor(z0, Add(z3, x0)); z3 := Rol(z3, 30);
    z1 := Xor(z1, z4);          z4 := Rol(z4, 13);
    z2 := Add(z2, z0);          z0 := Rol(z0, 20);
    z3 := Add(z3, z1);          z1 := Rol(z1, 11);
    z4 := Xor(z4, z2);          z2 := Rol(z2, 5);
    ghost var b := State(z0, z1, z2, z3, z4);
    assert b == XorHalf(a, x0);

    z0 := Add(z0, Xor(z3, p));  z3 := Rol(z3, 15);
    z1 := Add(z1, z4);          z4 := Rol(z4, 25);
    z2 := Xor(z2, z0);          z0 := Rol(z0, 9);
    z3 := Xor(z3, z1);          z1 := Rol(z1, 10);
    z4 := Add(z4, z2);          z2 := Rol(z2, 17);
    ghost var c := State(z0, z1, z2, z3, z4);
    assert c == AddHalf(b, p);

    z0 := Xor(z0, Add(z3, x1)); z3 := Rol(z3, 30);
    z1 := Xor(z1, z4);          z4 := Rol(z4, 13);
    z2 := Add(z2, z0);          z0 := Rol(z0, 20);
    z3 := Add(z3, z1);          z1 := Rol(z1, 11);
    z4 := Xor(z4, z2);          z2 := Rol(z2, 5);
    r := State(z0, z1, z2, z3, z4);
    assert r == XorHalf(c, x1);
    assert r == Block(z, x0, x1, p);

  }

  /** The two contexts realize a key schedule of the cipher. */
  ghost predicate Implements(s: StaticContext, d: DynamicContext, sched: Cipher.Schedule)
    reads s.x0, d, d.x1
  {
    && Apart(s, d)
    && IsBlock(sched.f)
    && (forall i: nat {:trigger s.x0[i % 8]} :: sched.x0(i) == s.x0[i % 8])
    && (forall i: nat {:trigger Cipher.OptimizedX1(d.x1[..], i)} :: sched.x1(i) == Cipher.OptimizedX1(d.x1[..], i))
  }

  method KeyWordsOf(s: StaticContext, d: DynamicContext, ghost sched: Cipher.Schedule) returns (x0: word, x1: word)
    requires Implements(s, d, sched)
    ensures x0 == sched.x0(d.iplus8) && x1 == sched.x1(d.iplus8)
  {
    x0 := s.x0[d.iplus8 % 8];
    x1 := Add(d.x1[d.iplus8 % 8], Low(d.iplus8));
    if d.iplus8 % 4 == 3 {
      x1 := Add(x1, Low(d.iplus8 / W32));
    }
    assert x1 == Cipher.OptimizedX1(d.x1[..], d.iplus8);
  }

  /** helix_block. */
  method NextBlock(s: StaticContext, d: DynamicContext, p: word, ghost sched: Cipher.Schedule) returns (ks: word)
    requires Implements(s, d, sched)
    modifies d.z, d`iplus8
    ensures Implements(s, d, sched)
    ensures d.Stream() == Cipher.Step(sched, old(d.Stream()), p)
    ensures ks == old(d.z[0])
  {
    var x0, x1 := KeyWordsOf(s, d, sched);
    ks := d.z[0];
    var r := Rounds(State(d.z[0], d.z[1], d.z[2], d.z[3], d.z[4]), x0, x1, p, sched.f);
    d.iplus8 := (d.iplus8 + 1) % W64;
    d.z[0], d.z[1], d.z[2], d.z[3], d.z[4] := r.z0, r.z1, r.z2, r.z3, r.z4;
  }

  // ---- helix_setkey -------------------------------------------------------

  /** The key schedule during key mixing: x0 is zero and x1[i] = -i cancels the counter. */
  lemma MixingKeysAreZero(x1: seq<word>, i: nat)
    requires |x1| == 8 && i < 8 && x1[i] == Sub(0, Low(i))
    ensures Cipher.OptimizedX1(x1, i) == 0
  {
    AddCancel(0, Low(i));
    AddZero(0);
    assert i % 8 == i && i / W32 == 0 && Low(0) == 0;
  }

  ghost function MixingSchedule(f: Key.BlockFunction, x1: seq<word>): Cipher.Schedule
    requires |x1| == 8
  {
    Cipher.Schedule(f, 0, (i: nat) => 0, (i: nat) => Cipher.OptimizedX1(x1, i))
  }

  lemma ImplementsMixing(s: StaticContext, d: DynamicContext, f: Key.BlockFunction)
    requires Apart(s, d) && IsBlock(f)
    requires forall i | 0 <= i < 8 :: s.x0[i] == 0
    ensures Implements(s, d, MixingSchedule(f, d.x1[..]))
  {
  }

  /** The block of one mixing round: x0 = 0, x1 = 0, p = 0. */
  method MixBlock(s: StaticContext, d: DynamicContext, l: nat, q: seq<word>, ghost sched: Cipher.Schedule)
    requires Implements(s, d, sched) && |q| == 4
    requires sched.x0(d.iplus8) == 0 && sched.x1(d.iplus8) == 0
    modifies d.z, d`iplus8
    ensures Implements(s, d, sched) && d.iplus8 == (old(d.iplus8) + 1) % W64
    ensures d.z[..4] == Key.RoundFunction(sched.f, l, q)
  {
    d.z[0], d.z[1], d.z[2], d.z[3] := q[0], q[1], q[2], q[3];
    d.z[4] := Low(l + 64);
    var _ := NextBlock(s, d, 0, sched);
  }

  /** One pass of the mixing loop, for index i. */
  method MixStep(s: StaticContext, d: DynamicContext, l: nat, k: array<word>, i: nat, ghost sched: Cipher.Schedule)
    requires Implements(s, d, sched) && k.Length == 40 && k !in {s.k, s.x0, d.n, d.z, d.x1}
    requires i < 8 && d.iplus8 == 7 - i && sched.x0(7 - i) == 0 && sched.x1(7 - i) == 0
    modifies d.z, d`iplus8, k
    ensures Implements(s, d, sched) && d.iplus8 == 8 - i
    ensures k[4 * i..4 * i + 8] == Key.MixRound(sched.f, l, old(k[4 * i + 4..4 * i + 12]))
  {
    ghost var w := k[4 * i + 4..4 * i + 12];
    MixBlock(s, d, l, [k[4 * i + 4], k[4 * i + 5], k[4 * i + 6], k[4 * i + 7]], sched);
    assert [k[4 * i + 4], k[4 * i + 5], k[4 * i + 6], k[4 * i + 7]] == w[..4];
    StoreXor(d.z, k, 4 * i);
    assert k[4 * i + 4..][..4] == w[..4];
    EightOf(k[..], 4 * i);
  }

  method StoreXor(z: array<word>, k: array<word>, b: nat)
    requires z.Length == 5 && b + 12 <= k.Length && z != k
    modifies k
    ensures k[b..b + 4] == Key.XorFour(z[..4], old(k[b + 8..b + 12]))
    ensures k[b + 4..] == old(k[b + 4..])
  {
    ghost var c := Key.XorFour(z[..4], k[b + 8..b + 12]);
    k[b] := Xor(z[0], k[b + 8]);
    k[b + 1] := Xor(z[1], k[b + 9]);
    k[b + 2] := Xor(z[2], k[b + 10]);
    k[b + 3] := Xor(z[3], k[b + 11]);
    FourOf(k[..], b, c);
  }

  lemma EightOf(k: seq<word>, b: nat)
    requires b + 8 <= |k|
    ensures k[b..b + 8] == k[b..b + 4] + k[b + 4..][..4]
  {
  }

  lemma FourOf(k: seq<word>, b: nat, c: seq<word>)
    requires |c| == 4 && b + 4 <= |k|
    requires k[b] == c[0] && k[b + 1] == c[1] && k[b + 2] == c[2] && k[b + 3] == c[3]
    ensures k[b..b + 4] == c
  {
  }

  method MixKey(s: StaticContext, d: DynamicContext, l: nat, k: array<word>, ghost f: Key.BlockFunction)
    requires Apart(s, d) && IsBlock(f) && k.Length == 40 && k !in {s.k, s.x0, d.n, d.z, d.x1}
    requires d.iplus8 == 0
    requires forall i | 0 <= i < 8 :: s.x0[i] == 0 && d.x1[i] == Sub(0, Low(i))
    modifies d.z, d`iplus8, k
    ensures k[..8] == Key.Mix(f, l, old(k[32..40]), Key.ROUNDS)
  {
    ghost var sched := MixingSchedule(f, d.x1[..]);
    forall j | 0 <= j < 8 ensures NoKeys(sched, j) {
      MixingKeysAreZero(d.x1[..], j);
    }
    ImplementsMixing(s, d, f);
    ghost var path := MixPath(f, l, k[32..40]);
    MixLoop(s, d, l, k, sched, path);
  }

  /** The key words of block j are zero. */
  ghost predicate NoKeys(sched: Cipher.Schedule, j: nat) {
    sched.x0(j) == 0 && sched.x1(j) == 0
  }

  ghost predicate IsRound(f: Key.BlockFunction, l: nat, w: seq<word>, next: seq<word>)
    requires |w| == 8
  {
    next == Key.MixRound(f, l, w)
  }

  /** The window before and after each round. */
  lemma MixPath(f: Key.BlockFunction, l: nat, w: seq<word>) returns (path: seq<seq<word>>)
    requires |w| == 8
    ensures |path| == Key.ROUNDS + 1 && path[0] == w && path[Key.ROUNDS] == Key.Mix(f, l, w, Key.ROUNDS)
    ensures forall j | 0 <= j <= Key.ROUNDS :: |path[j]| == 8
    ensures forall j {:trigger IsRound(f, l, path[j], path[j + 1])} | 0 <= j < Key.ROUNDS :: IsRound(f, l, path[j], path[j + 1])
  {
    path := seq(Key.ROUNDS + 1, j requires 0 <= j <= Key.ROUNDS => Key.Mix(f, l, w, j));
  }

  /** The mixing loop goes down the path. */
  method MixLoop(s: StaticContext, d: DynamicContext, l: nat, k: array<word>, ghost sched: Cipher.Schedule,
                 ghost path: seq<seq<word>>)
    requires Implements(s, d, sched) && k.Length == 40 && k !in {s.k, s.x0, d.n, d.z, d.x1}
    requires d.iplus8 == 0 && forall j | 0 <= j < 8 :: NoKeys(sched, j)
    requires |path| == 9 && path[0] == k[32..40] && forall j | 0 <= j <= 8 :: |path[j]| == 8
    requires forall j {:trigger IsRound(sched.f, l, path[j], path[j + 1])} | 0 <= j < 8 :: IsRound(sched.f, l, path[j], path[j + 1])
    modifies d.z, d`iplus8, k
    ensures k[..8] == path[8]
  {
    var i := 7;
    ghost var j, at := 0, 32;
    while i >= 0
      invariant -1 <= i <= 7 && d.iplus8 == j == 7 - i && at == 4 * i + 4
      invariant Implements(s, d, sched)
      invariant k[at..at + 8] == path[j]
    {
      assert NoKeys(sched, j) && IsRound(sched.f, l, path[j], path[j + 1]);
      ghost var to, next := at - 4, path[j + 1];
      MixStepTo(s, d, l, k, i, sched, at, to, next);
      i, j, at := i - 1, j + 1, to;
    }
  }

  /** One pass, from the window at one place to that at the next. */
  method MixStepTo(s: StaticContext, d: DynamicContext, l: nat, k: array<word>, i: nat, ghost sched: Cipher.Schedule,
                   ghost at: nat, ghost to: nat, ghost next: seq<word>)
    requires Implements(s, d, sched) && k.Length == 40 && k !in {s.k, s.x0, d.n, d.z, d.x1}
    requires i < 8 && d.iplus8 == 7 - i && NoKeys(sched, 7 - i)
    requires to == 4 * i && at == to + 4 && IsRound(sched.f, l, k[at..at + 8], next)
    modifies d.z, d`iplus8, k
    ensures Implements(s, d, sched) && d.iplus8 == 8 - i
    ensures k[to..to + 8] == next
  {
    MixStep(s, d, l, k, i, sched);
  }

  /** helix_setkey: no context for a key of more than 32 octets, else a context that holds
      the working key. */
  method SetKey(scontextp: StaticContext?, u: seq<octet>, ghost f: Key.BlockFunction) returns (r: StaticContext?)
    requires IsBlock(f) && (scontextp != null ==> scontextp.Valid())
    modifies scontextp, if scontextp != null then {scontextp.k, scontextp.x0} else {}
    ensures r == null <==> |u| > 32
    ensures r != null ==> r.Holds(Key.WorkingKey(f, u)) && r.l == |u|
    ensures r != null ==> if scontextp != null then r == scontextp else fresh(r) && fresh(r.k) && fresh(r.x0)
  {
    if |u| > 32 {
      return null;
    }
    var up := u + seq(32 - |u|, _ => 0);
    var s;
    if scontextp != null {
      s := scontextp;
    } else {
      s := new StaticContext();
    }
    FillContext(s, up, |u|, f);
    r := s;
  }

  /** The context from the zero-extended key octets. */
  method FillContext(s: StaticContext, up: seq<octet>, l: nat, ghost f: Key.BlockFunction)
    requires s.Valid() && IsBlock(f) && |up| == 32
    modifies s, s.k, s.x0
    ensures s.Holds(Key.Mix(f, l, Key.KeyWords(up), Key.ROUNDS)) && s.l == l
  {
    s.magic, s.l := 0, 0;
    Clear(s.k);
    Clear(s.x0);
    var k := MixedKey(s, up, l, f);
    Copy8(k, s.k);
    s.l := l;
    Copy8(s.k, s.x0);
    s.magic := Cipher.MAGIC;
  }

  /** Load k[32..39] and mix down to k[0..7], with a context whose x0 is zero. */
  method MixedKey(s: StaticContext, up: seq<octet>, l: nat, ghost f: Key.BlockFunction) returns (k: array<word>)
    requires s.Valid() && IsBlock(f) && |up| == 32
    requires forall i | 0 <= i < 8 :: s.x0[i] == 0
    ensures fresh(k) && k.Length == 40 && k[..8] == Key.Mix(f, l, Key.KeyWords(up), Key.ROUNDS)
  {
    k := LoadKey(up);
    var d := new DynamicContext();
    SetMixingX1(d.x1);
    MixKey(s, d, l, k, f);
  }

  /** k[32..39], from the zero-extended key octets. */
  method LoadKey(up: seq<octet>) returns (k: array<word>)
    requires |up| == 32
    ensures fresh(k) && k.Length == 40 && k[32..40] == Key.KeyWords(up)
  {
    k := new word[40](_ => 0);
    for i := 0 to 8
      invariant forall j | 0 <= j < i :: k[32 + j] == FromLE(up[4 * j..4 * j + 4])
    {
      k[32 + i] := FromLE(up[4 * i..4 * i + 4]);
    }
  }

  method Clear(a: array<word>)
    requires a.Length == 8
    modifies a
    ensures forall i | 0 <= i < 8 :: a[i] == 0
  {
    for i := 0 to 8
      invariant forall j | 0 <= j < i :: a[j] == 0
    {
      a[i] := 0;
    }
  }

  method SetMixingX1(x1: array<word>)
    requires x1.Length == 8
    modifies x1
    ensures forall i | 0 <= i < 8 :: x1[i] == Sub(0, Low(i))
  {
    for i := 0 to 8
      invariant forall j | 0 <= j < i :: x1[j] == Sub(0, Low(j))
    {
      x1[i] := Sub(0, Low(i));
    }
  }

  method Copy8(a: array<word>, b: array<word>)
    requires a != b && a.Length >= 8 && b.Length == 8
    modifies b
    ensures b[..] == a[..8]
  {
    for i := 0 to 8
      invariant b[..i] == a[..i]
    {
      b[i] := a[i];
    }
  }

  // ---- helix_nonce --------------------------------------------------------

  /** The nonce as eight words: four little-endian ones and their complements. */
  ghost function NonceWords(n: seq<octet>): (w: seq<word>)
    requires |n| == NONCE_LEN
    ensures |w| == 8
  {
    seq(8, i requires 0 <= i < 8 =>
      if i < 4 then FromLE(n[4 * i..4 * i + 4]) else Sub(Low(i - 4), FromLE(n[4 * (i - 4)..4 * (i - 4) + 4])))
  }

  method ExtendNonce(d: DynamicContext, n: seq<octet>)
    requires d.Valid() && |n| == NONCE_LEN
    modifies d.n
    ensures d.n[..] == NonceWords(n)
  {
    LoadNonce(d.n, n);
    ghost var w := d.n[..4];
    for i := 0 to 4
      invariant forall j | 0 <= j < 4 :: d.n[j] == w[j]
      invariant forall j | 4 <= j < 4 + i :: d.n[j] == Sub(Low(j - 4), w[j - 4])
    {
      d.n[i + 4] := Sub(Low(i), d.n[i]);
    }
    NonceWordsAre(d.n[..], n);
  }

  /** The four words of the nonce itself. */
  method LoadNonce(w: array<word>, n: seq<octet>)
    requires w.Length == 8 && |n| == NONCE_LEN
    modifies w
    ensures forall j | 0 <= j < 4 :: w[j] == FromLE(n[4 * j..4 * j + 4])
  {
    for i := 0 to 4
      invariant forall j | 0 <= j < i :: w[j] == FromLE(n[4 * j..4 * j + 4])
    {
      w[i] := FromLE(n[4 * i..4 * i + 4]);
    }
  }

  lemma NonceWordsAre(w: seq<word>, n: seq<octet>)
    requires |w| == 8 && |n| == NONCE_LEN
    requires forall j | 0 <= j < 4 :: w[j] == FromLE(n[4 * j..4 * j + 4])
    requires forall j | 4 <= j < 8 :: w[j] == Sub(Low(j - 4), w[j - 4])
    ensures w == NonceWords(n)
  {
  }

  method SetX1(s: StaticContext, d: DynamicContext)
    requires Apart(s, d)
    modifies d.x1
    ensures d.x1[..] == Cipher.BiasedX1(s.k[..], d.n[..], s.l)
  {
    ghost var spec := Cipher.BiasedX1(s.k[..], d.n[..], s.l);
    for i := 0 to 8
      invariant d.x1[..i] == spec[..i]
    {
      assert spec[i] == Sub(Add(Add(s.k[..][(i + 4) % 8], d.n[..][i]), if i % 4 == 1 then Low(4 * s.l) else 0), Low(Cipher.BIAS));
      d.x1[i] := Sub(Add(Add(s.k[(i + 4) % 8], d.n[i]), if i % 4 == 1 then Low(4 * s.l) else 0), Low(Cipher.BIAS));
    }
  }

  /** helix_nonce: the contexts then realize the optimized schedule for this key and nonce,
      and the stream is ready for the first message word. */
  method SetNonce(s: StaticContext, d: DynamicContext, n: seq<octet>, ghost f: Key.BlockFunction)
    requires Apart(s, d) && IsBlock(f) && |n| == NONCE_LEN && s.k[..] == s.x0[..]
    modifies d.n, d.x1, d.z, d`iplus8
    ensures Implements(s, d, Cipher.OptimizedFor(f, s.k[..], NonceWords(n), s.l))
    ensures d.Stream() == Cipher.Setup(Cipher.OptimizedFor(f, s.k[..], NonceWords(n), s.l), s.k[..], NonceWords(n))
  {
    ExtendNonce(d, n);
    SetX1(s, d);
    ghost var k, w := s.k[..], NonceWords(n);
    ghost var sched := Cipher.OptimizedFor(f, k, w, s.l);
    InitStream(s, d);
    ImplementsOptimized(s, d, f, k, w);
    var _ := RunBlocks(s, d, 0, Cipher.SETUP_BLOCKS, sched);
  }

  method InitStream(s: StaticContext, d: DynamicContext)
    requires Apart(s, d)
    modifies d.z, d`iplus8
    ensures d.Valid() && d.Stream() == Cipher.Stream(Cipher.Initial(s.k[..], d.n[..]), Cipher.BIAS)
  {
    d.z[0] := Xor(s.k[3], d.n[0]);
    d.z[1] := Xor(s.k[4], d.n[1]);
    d.z[2] := Xor(s.k[5], d.n[2]);
    d.z[3] := Xor(s.k[6], d.n[3]);
    d.z[4] := s.k[7];
    d.iplus8 := 0;
    d.iplus8 := (d.iplus8 + Cipher.BIAS) % W64;
  }

  lemma ImplementsOptimized(s: StaticContext, d: DynamicContext, f: Key.BlockFunction, k: seq<word>, w: seq<word>)
    requires Apart(s, d) && IsBlock(f) && s.x0[..] == k && |k| == |w| == 8
    requires d.x1[..] == Cipher.BiasedX1(k, w, s.l)
    ensures Implements(s, d, Cipher.OptimizedFor(f, k, w, s.l))
  {
  }

  /** Feed one word to the block function n times; returns the last keystream words. */
  method RunBlocks(s: StaticContext, d: DynamicContext, p: word, n: nat, ghost sched: Cipher.Schedule)
    returns (ghost ks: seq<word>)
    requires Implements(s, d, sched)
    modifies d.z, d`iplus8
    ensures Implements(s, d, sched)
    ensures (d.Stream(), ks) == Cipher.Run(sched, old(d.Stream()), Cipher.Repeat(p, n))
  {
    ks := [];
    ghost var ps := Cipher.Repeat(p, n);
    ghost var (end, all) := Cipher.Run(sched, d.Stream(), ps);
    ghost var rest := all;
    assert ps[0..] == ps && ks + rest == all;
    for i := 0 to n
      invariant Implements(s, d, sched)
      invariant Cipher.Run(sched, d.Stream(), ps[i..]) == (end, rest) && ks + rest == all
    {
      RunStep(sched, d.Stream(), ps, i);
      var k := NextBlock(s, d, p, sched);
      MoveWord(ks, rest);
      ks, rest := ks + [k], rest[1..];
    }
    assert ks + rest == ks;
  }

  lemma MoveWord(ks: seq<word>, rest: seq<word>)
    requires rest != []
    ensures ks + rest == (ks + [rest[0]]) + rest[1..]
  {
  }

  /** The first of the words that are left. */
  lemma RunStep(sched: Cipher.Schedule, st: Cipher.Stream, ps: seq<word>, i: nat)
    requires i < |ps|
    ensures var (end, rest) := Cipher.Run(sched, st, ps[i..]);
      rest != [] && rest[0] == st.z.z0 && Cipher.Run(sched, Cipher.Step(sched, st, ps[i]), ps[i + 1..]) == (end, rest[1..])
  {
    assert ps[i..][1..] == ps[i + 1..];
  }

  // ---- the MAC ------------------------------------------------------------

  lemma {:induction false} OctetsAppend(ws: seq<word>, w: word)
    ensures Key.Octets(ws + [w]) == Key.Octets(ws) + ToLE(w)
  {
    if ws == [] {
      calc {
        Key.Octets(ws + [w]);
        { assert ws + [w] == [w]; }
        Key.Octets([w]);
        { assert [w][0] == w && [w][1..] == []; }
        ToLE(w) + Key.Octets([]);
        ToLE(w);
      }
    } else {
      assert (ws + [w])[1..] == ws[1..] + [w];
      OctetsAppend(ws[1..], w);
    }
  }

  lemma {:induction false} RunSplit(sched: Cipher.Schedule, st: Cipher.Stream, ps: seq<word>, qs: seq<word>)
    ensures var (mid, ks) := Cipher.Run(sched, st, ps);
      var (end, ls) := Cipher.Run(sched, mid, qs);
      Cipher.Run(sched, st, ps + qs) == (end, ks + ls)
    decreases |ps|
  {
    if ps == [] {
      assert ps + qs == qs;
      var ls := Cipher.Run(sched, st, qs).1;
      assert [] + ls == ls;
    } else {
      var next := Cipher.Step(sched, st, ps[0]);
      assert (ps + qs)[1..] == ps[1..] + qs;
      RunSplit(sched, next, ps[1..], qs);
      var (mid, ks) := Cipher.Run(sched, next, ps[1..]);
      var ls := Cipher.Run(sched, mid, qs).1;
      assert [st.z.z0] + (ks + ls) == ([st.z.z0] + ks) + ls;
    }
  }

  /** The region of an array that an out-parameter of helix.c points to. */
  ghost predicate Region(a: array<octet>, at: nat, len: nat) {
    at + len <= a.Length
  }

  /** Store a word as four little-endian octets (HEUINT32TOLEUCHAR). */
  method StoreWord(a: array<octet>, at: nat, w: word)
    requires Region(a, at, 4)
    modifies a
    ensures a[at..at + 4] == ToLE(w)
    ensures forall i | 0 <= i < a.Length && !(at <= i < at + 4) :: a[i] == old(a[i])
  {
    var t := ToLE(w);
    a[at], a[at + 1], a[at + 2], a[at + 3] := t[0], t[1], t[2], t[3];
  }

  /** The last part of helix_encrypt and helix_decrypt: eight blocks, then four keystream
      words stored at m. */
  method GenerateMac(s: StaticContext, d: DynamicContext, left: nat, m: array<octet>, mo: nat, ghost sched: Cipher.Schedule,
                     ghost len: nat)
    requires Implements(s, d, sched) && Region(m, mo, MAC_LEN) && left == len % 4
    modifies d.z, d`iplus8, m
    ensures Implements(s, d, sched)
    ensures (d.Stream(), m[mo..mo + MAC_LEN]) == Cipher.Mac(sched, old(d.Stream()), len)
    ensures forall i | 0 <= i < m.Length && !(mo <= i < mo + MAC_LEN) :: m[i] == old(m[i])
  {
    ghost var start := d.Stream();
    d.z[0] := Xor(d.z[0], Cipher.MAGIC);
    ghost var st := d.Stream();
    assert st == start.(z := start.z.(z0 := Xor(start.z.z0, Cipher.MAGIC)));
    var p := Low(left);
    ghost var ks := RunBlocks(s, d, p, 8, sched);
    ghost var mid := d.Stream();
    ghost var ls := TagWords(s, d, p, m, mo, sched);
    RunSplit(sched, st, Cipher.Repeat(p, 8), Cipher.Repeat(p, 4));
    assert Cipher.Repeat(p, 8) + Cipher.Repeat(p, 4) == Cipher.Repeat(p, Cipher.MAC_BLOCKS);
    assert (ks + ls)[8..] == ls;
  }

  method TagWords(s: StaticContext, d: DynamicContext, p: word, m: array<octet>, mo: nat, ghost sched: Cipher.Schedule)
    returns (ghost ls: seq<word>)
    requires Implements(s, d, sched) && Region(m, mo, MAC_LEN)
    modifies d.z, d`iplus8, m
    ensures Implements(s, d, sched)
    ensures (d.Stream(), ls) == Cipher.Run(sched, old(d.Stream()), Cipher.Repeat(p, 4))
    ensures m[mo..mo + MAC_LEN] == Key.Octets(ls)
    ensures forall i | 0 <= i < m.Length && !(mo <= i < mo + MAC_LEN) :: m[i] == old(m[i])
  {
    ls := [];
    ghost var st := d.Stream();
    for j := 0 to 4
      invariant Implements(s, d, sched)
      invariant |ls| == j && (d.Stream(), ls) == Cipher.Run(sched, st, Cipher.Repeat(p, j))
      invariant m[mo..mo + 4 * j] == Key.Octets(ls)
      invariant forall i | 0 <= i < m.Length && !(mo <= i < mo + MAC_LEN) :: m[i] == old(m[i])
    {
      RunAppend(sched, st, p, j);
      var k := NextBlock(s, d, p, sched);
      StoreTagWord(m, mo, j, k, ls);
      ls := ls + [k];
    }
  }

  /** Append one word to the j tag words already stored. */
  method StoreTagWord(m: array<octet>, mo: nat, j: nat, k: word, ghost ls: seq<word>)
    requires |ls| == j && Region(m, mo, 4 * j + 4)
    requires m[mo..mo + 4 * j] == Key.Octets(ls)
    modifies m
    ensures m[mo..mo + 4 * j + 4] == Key.Octets(ls + [k])
    ensures forall i | 0 <= i < m.Length && !(mo <= i < mo + 4 * j + 4) :: m[i] == old(m[i])
  {
    StoreWord(m, mo + 4 * j, k);
    assert m[mo..mo + 4 * j + 4] == old(m[mo..mo + 4 * j]) + ToLE(k);
    OctetsAppend(ls, k);
  }

  lemma RunAppend(sched: Cipher.Schedule, st: Cipher.Stream, p: word, n: nat)
    ensures var (mid, ks) := Cipher.Run(sched, st, Cipher.Repeat(p, n));
      Cipher.Run(sched, st, Cipher.Repeat(p, n + 1)) == (Cipher.Step(sched, mid, p), ks + [mid.z.z0])
  {
    RunSplit(sched, st, Cipher.Repeat(p, n), [p]);
    assert Cipher.Repeat(p, n) + [p] == Cipher.Repeat(p, n + 1);
    var mid := Cipher.Run(sched, st, Cipher.Repeat(p, n)).0;
    assert Cipher.Run(sched, mid, [p]) == (Cipher.Step(sched, mid, p), [mid.z.z0]) by {
      assert [p][1..] == [];
      assert [mid.z.z0] + [] == [mid.z.z0];
    }
  }

  // ---- helix_encrypt and helix_decrypt ------------------------------------

  /** Two regions of length l that are the same or do not meet. */
  ghost predicate SameOrDisjoint(p: array<octet>, po: nat, c: array<octet>, co: nat, l: nat) {
    p == c ==> po == co || po + l <= co || co + l <= po
  }

  ghost predicate Disjoint(c: array<octet>, co: nat, l: nat, m: array<octet>, mo: nat, n: nat) {
    c == m ==> co + l <= mo || mo + n <= co
  }

  method StoreOctets(a: array<octet>, at: nat, t: seq<octet>)
    requires Region(a, at, |t|) && |t| <= 4
    modifies a
    ensures a[at..at + |t|] == t
    ensures forall i | 0 <= i < a.Length && !(at <= i < at + |t|) :: a[i] == old(a[i])
  {
    for j := 0 to |t|
      invariant a[at..at + j] == t[..j]
      invariant forall i | 0 <= i < a.Length && !(at <= i < at + |t|) :: a[i] == old(a[i])
    {
      a[at + j] := t[j];
    }
  }

  /** A zero-extended partial word, xored as a word and cut back to its octets. */
  lemma PartialXor(q: seq<octet>, k: word)
    requires |q| <= 4
    ensures ToLE(Xor(FromLE(q), k))[..|q|] == XorOctets(q, ToLE(k))
  {
    XorOfWords(FromLE(q), k);
    ToFromLE(q);
    forall i | 0 <= i < |q| ensures ToLE(FromLE(q))[i] == q[i] {
      assert ToLE(FromLE(q))[i] == ToLE(FromLE(q))[..|q|][i];
    }
  }

  /** Encrypt one whole word from p[at..] to c[to..]. */
  method EncryptWord(s: StaticContext, d: DynamicContext, p: array<octet>, at: nat,
                     c: array<octet>, to: nat, ghost sched: Cipher.Schedule)
    requires Implements(s, d, sched) && Region(p, at, 4) && Region(c, to, 4)
    modifies d.z, d`iplus8, c
    ensures Implements(s, d, sched)
    ensures d.Stream() == Cipher.Step(sched, old(d.Stream()), FromLE(old(p[at..at + 4])))
    ensures c[to..to + 4] == XorOctets(old(p[at..at + 4]), ToLE(old(d.z[0])))
    ensures forall i | 0 <= i < c.Length && !(to <= i < to + 4) :: c[i] == old(c[i])
  {
    var q := p[at..at + 4];
    var k := NextBlock(s, d, FromLE(q), sched);
    StoreOctets(c, to, XorOctets(q, ToLE(k)));
  }

  /** Encrypt the n < 4 octets left over. */
  method EncryptRest(s: StaticContext, d: DynamicContext, p: array<octet>, at: nat, n: nat,
                     c: array<octet>, to: nat, ghost sched: Cipher.Schedule)
    requires Implements(s, d, sched) && n < 4 && Region(p, at, n) && Region(c, to, n)
    modifies d.z, d`iplus8, c
    ensures Implements(s, d, sched)
    ensures d.Stream() == Cipher.Step(sched, old(d.Stream()), FromLE(old(p[at..at + n])))
    ensures c[to..to + n] == XorOctets(old(p[at..at + n]), ToLE(old(d.z[0])))
    ensures forall i | 0 <= i < c.Length && !(to <= i < to + n) :: c[i] == old(c[i])
  {
    var q := p[at..at + n];
    var word := FromLE(q);
    var k := NextBlock(s, d, word, sched);
    PartialXor(q, k);
    word := Xor(word, k);
    StoreOctets(c, to, ToLE(word)[..n]);
  }

  /** Decrypt one whole word: undo the keystream before the block sees the plaintext. */
  method DecryptWord(s: StaticContext, d: DynamicContext, c: array<octet>, at: nat,
                     p: array<octet>, to: nat, ghost sched: Cipher.Schedule)
    requires Implements(s, d, sched) && Region(c, at, 4) && Region(p, to, 4)
    modifies d.z, d`iplus8, p
    ensures Implements(s, d, sched)
    ensures p[to..to + 4] == XorOctets(old(c[at..at + 4]), ToLE(old(d.z[0])))
    ensures d.Stream() == Cipher.Step(sched, old(d.Stream()), FromLE(p[to..to + 4]))
    ensures forall i | 0 <= i < p.Length && !(to <= i < to + 4) :: p[i] == old(p[i])
  {
    var q := c[at..at + 4];
    var word := Xor(FromLE(q), d.z[0]);
    PartialXor(q, d.z[0]);
    FromToLE(word);
    assert ToLE(word)[..4] == ToLE(word);
    var k := NextBlock(s, d, word, sched);
    StoreOctets(p, to, XorOctets(q, ToLE(k)));
  }

  /** Decrypt the n < 4 octets left over, then run them through the block. */
  method DecryptRest(s: StaticContext, d: DynamicContext, c: array<octet>, at: nat, n: nat,
                     p: array<octet>, to: nat, ghost sched: Cipher.Schedule)
    requires Implements(s, d, sched) && n < 4 && Region(c, at, n) && Region(p, to, n)
    modifies d.z, d`iplus8, p
    ensures Implements(s, d, sched)
    ensures p[to..to + n] == XorOctets(old(c[at..at + n]), ToLE(old(d.z[0])))
    ensures d.Stream() == Cipher.Step(sched, old(d.Stream()), FromLE(p[to..to + n]))
    ensures forall i | 0 <= i < p.Length && !(to <= i < to + n) :: p[i] == old(p[i])
  {
    StoreOctets(p, to, XorOctets(c[at..at + n], ToLE(d.z[0])));
    var _ := NextBlock(s, d, FromLE(p[to..to + n]), sched);
  }

  /** The next chunk in either direction: a whole word, or the octets left over. */
  method CryptChunk(dir: Cipher.Direction, s: StaticContext, d: DynamicContext, x: array<octet>, at: nat, n: nat,
                    y: array<octet>, to: nat, ghost sched: Cipher.Schedule, ghost q: seq<octet>, ghost st: Cipher.Stream)
    requires Implements(s, d, sched) && n <= 4 && Region(x, at, n) && Region(y, to, n)
    requires q == x[at..at + n] && st == d.Stream()
    modifies d.z, d`iplus8, y
    ensures Implements(s, d, sched)
    ensures y[to..to + n] == XorOctets(q, ToLE(st.z.z0))
    ensures d.Stream() == Cipher.Step(sched, st, FromLE(Cipher.Fed(dir, q, st.z.z0)))
    ensures forall i | 0 <= i < y.Length && !(to <= i < to + n) :: y[i] == old(y[i])
  {
    match dir {
      case Sealing =>
        if n == 4 {
          EncryptWord(s, d, x, at, y, to, sched);
        } else {
          EncryptRest(s, d, x, at, n, y, to, sched);
        }
      case Opening =>
        if n == 4 {
          DecryptWord(s, d, x, at, y, to, sched);
        } else {
          DecryptRest(s, d, x, at, n, y, to, sched);
        }
    }
  }

  /** The final stream and the whole output. */
  type Output = (Cipher.Stream, seq<octet>)

  /** The output written so far, followed by what is still to come, is the whole. */
  ghost predicate Progress(dir: Cipher.Direction, sched: Cipher.Schedule, whole: Output, src: seq<octet>,
                             now: Cipher.Stream, done: seq<octet>)
  {
    |done| <= |src| &&
    var (end, rest) := Cipher.Crypt(dir, sched, now, src[|done|..]);
    whole == (end, done + rest)
  }

  lemma ProgressStep(dir: Cipher.Direction, sched: Cipher.Schedule, whole: Output, src: seq<octet>,
                     now: Cipher.Stream, done: seq<octet>, q: seq<octet>, next: Cipher.Stream, out: seq<octet>)
    requires Progress(dir, sched, whole, src, now, done) && |done| < |src| && q == Cipher.Chunk(src[|done|..])
    requires next == Cipher.Step(sched, now, FromLE(Cipher.Fed(dir, q, now.z.z0)))
    requires out == XorOctets(q, ToLE(now.z.z0))
    ensures Progress(dir, sched, whole, src, next, done + out)
  {
    var left := src[|done|..];
    Cipher.CryptUnfold(dir, sched, now, left, q, next, out);
    DropTwice(src, |done|, |q|);
    var (end, rest) := Cipher.Crypt(dir, sched, next, left[|q|..]);
    Sequences.Regroup(done, out, rest);
    assert |done + out| == |done| + |q|;
    assert whole == (end, (done + out) + rest);
  }

  lemma DropTwice(s: seq<octet>, m: nat, n: nat)
    requires m + n <= |s|
    ensures s[m..][n..] == s[m + n..]
  {
  }

  /** The octets of x from i on are still those of src. */
  ghost predicate Unread(i: nat, x: array<octet>, xo: nat, src: seq<octet>)
    reads x
    requires Region(x, xo, |src|)
  {
    forall j | i <= j < |src| :: x[xo + j] == src[j]
  }

  /** The first i octets of the output are there. */
  ghost predicate Written(i: nat, y: array<octet>, yo: nat, done: seq<octet>)
    reads y
  {
    |done| == i && yo + i <= y.Length && forall j | 0 <= j < i :: y[yo + j] == done[j]
  }

  lemma WrittenIsSlice(i: nat, y: array<octet>, yo: nat, done: seq<octet>)
    requires yo + i <= y.Length
    ensures Written(i, y, yo, done) <==> done == y[yo..yo + i]
  {
  }

  /** One pass of the message loop: the octets q at position i. */
  method CryptPass(dir: Cipher.Direction, i: nat, n: nat, s: StaticContext, d: DynamicContext,
                   x: array<octet>, xo: nat, y: array<octet>, yo: nat, ghost sched: Cipher.Schedule,
                   ghost src: seq<octet>, ghost q: seq<octet>, ghost st: Cipher.Stream)
    requires Implements(s, d, sched) && n <= 4 && i + n <= |src| && q == src[i..i + n] && st == d.Stream()
    requires Region(x, xo, |src|) && Region(y, yo, |src|) && SameOrDisjoint(x, xo, y, yo, |src|)
    requires Unread(i, x, xo, src)
    modifies d.z, d`iplus8, y
    ensures Implements(s, d, sched)
    ensures d.Stream() == Cipher.Step(sched, st, FromLE(Cipher.Fed(dir, q, st.z.z0)))
    ensures y[yo..yo + (i + n)] == old(y[yo..yo + i]) + XorOctets(q, ToLE(st.z.z0))
    ensures Unread(i + n, x, xo, src)
    ensures forall j | 0 <= j < y.Length && !(yo <= j < yo + |src|) :: y[j] == old(y[j])
  {
    ghost var out := XorOctets(q, ToLE(st.z.z0));
    assert x[xo + i..xo + i + n] == q;
    CryptChunk(dir, s, d, x, xo + i, n, y, yo + i, sched, q, st);
    assert y[yo..yo + i] == old(y[yo..yo + i]);
    assert y[yo + i..yo + i + n] == out;
    Adjacent(y[..], yo, i, n);
  }

  lemma Adjacent(y: seq<octet>, yo: nat, i: nat, n: nat)
    requires yo + i + n <= |y|
    ensures y[yo..yo + (i + n)] == y[yo..yo + i] + y[yo + i..yo + i + n]
  {
  }

  method CryptTurn(dir: Cipher.Direction, i: nat, n: nat, s: StaticContext, d: DynamicContext, x: array<octet>, xo: nat,
                     y: array<octet>, yo: nat, ghost sched: Cipher.Schedule, ghost src: seq<octet>,
                     ghost whole: Output, ghost done: seq<octet>) returns (ghost more: seq<octet>)
    requires Implements(s, d, sched) && (n == 4 <= |src| - i || 0 < n == |src| - i < 4)
    requires Region(x, xo, |src|) && Region(y, yo, |src|) && SameOrDisjoint(x, xo, y, yo, |src|)
    requires Unread(i, x, xo, src) && Written(i, y, yo, done) && Progress(dir, sched, whole, src, d.Stream(), done)
    modifies d.z, d`iplus8, y
    ensures Implements(s, d, sched)
    ensures Unread(i + n, x, xo, src) && Written(i + n, y, yo, more) && Progress(dir, sched, whole, src, d.Stream(), more)
    ensures forall j | 0 <= j < y.Length && !(yo <= j < yo + |src|) :: y[j] == old(y[j])
  {
    ghost var q := src[i..i + n];
    assert Cipher.Chunk(src[i..]) == q;
    ghost var now := d.Stream();
    WrittenIsSlice(i, y, yo, done);
    CryptPass(dir, i, n, s, d, x, xo, y, yo, sched, src, q, now);
    more := done + XorOctets(q, ToLE(now.z.z0));
    WrittenIsSlice(i + n, y, yo, more);
    ProgressStep(dir, sched, whole, src, now, done, q, d.Stream(), XorOctets(q, ToLE(now.z.z0)));
  }

  /** The loop over whole words. */
  method CryptWords(dir: Cipher.Direction, s: StaticContext, d: DynamicContext, x: array<octet>, xo: nat, l: nat,
                      y: array<octet>, yo: nat, ghost sched: Cipher.Schedule, ghost src: seq<octet>, ghost whole: Output)
    returns (i: nat, ghost done: seq<octet>)
    requires Implements(s, d, sched) && l == |src|
    requires Region(x, xo, l) && Region(y, yo, l) && SameOrDisjoint(x, xo, y, yo, l)
    requires Unread(0, x, xo, src) && Progress(dir, sched, whole, src, d.Stream(), [])
    modifies d.z, d`iplus8, y
    ensures i <= l < i + 4 && l - i == l % 4
    ensures Implements(s, d, sched) && Unread(i, x, xo, src)
    ensures Written(i, y, yo, done) && Progress(dir, sched, whole, src, d.Stream(), done)
    ensures forall j | 0 <= j < y.Length && !(yo <= j < yo + l) :: y[j] == old(y[j])
  {
    done, i := [], 0;
    while l - i >= 4
      invariant i <= l && i % 4 == 0
      invariant Implements(s, d, sched) && Unread(i, x, xo, src)
      invariant Written(i, y, yo, done) && Progress(dir, sched, whole, src, d.Stream(), done)
      invariant forall j | 0 <= j < y.Length && !(yo <= j < yo + l) :: y[j] == old(y[j])
    {
      done := CryptTurn(dir, i, 4, s, d, x, xo, y, yo, sched, src, whole, done);
      i := i + 4;
    }
    LeftOver(l, i);
  }

  lemma LeftOver(l: nat, i: nat)
    requires i <= l < i + 4 && i % 4 == 0
    ensures l - i == l % 4
  {
  }

  /** The octets left over after the whole words, if any. */
  method CryptTail(dir: Cipher.Direction, i: nat, s: StaticContext, d: DynamicContext, x: array<octet>, xo: nat, l: nat,
                     y: array<octet>, yo: nat, ghost sched: Cipher.Schedule, ghost src: seq<octet>,
                     ghost whole: Output, ghost done: seq<octet>)
    requires Implements(s, d, sched) && |src| == l && i <= l < i + 4
    requires Region(x, xo, l) && Region(y, yo, l) && SameOrDisjoint(x, xo, y, yo, l)
    requires Unread(i, x, xo, src) && Written(i, y, yo, done) && Progress(dir, sched, whole, src, d.Stream(), done)
    modifies d.z, d`iplus8, y
    ensures Implements(s, d, sched)
    ensures (d.Stream(), y[yo..yo + l]) == whole
    ensures forall j | 0 <= j < y.Length && !(yo <= j < yo + l) :: y[j] == old(y[j])
  {
    if i < l {
      ghost var more := CryptTurn(dir, i, l - i, s, d, x, xo, y, yo, sched, src, whole, done);
      WrittenIsSlice(l, y, yo, more);
      ProgressEnd(dir, sched, whole, src, d.Stream(), more);
    } else {
      WrittenIsSlice(l, y, yo, done);
      ProgressEnd(dir, sched, whole, src, d.Stream(), done);
    }
  }

  /** The message part of helix_encrypt and helix_decrypt; x and y may be the same region. */
  method CryptMessage(dir: Cipher.Direction, s: StaticContext, d: DynamicContext, x: array<octet>, xo: nat, l: nat,
                        y: array<octet>, yo: nat, ghost sched: Cipher.Schedule) returns (i: nat)
    requires Implements(s, d, sched)
    requires Region(x, xo, l) && Region(y, yo, l) && SameOrDisjoint(x, xo, y, yo, l)
    modifies d.z, d`iplus8, y
    ensures i <= l && l - i == l % 4
    ensures Implements(s, d, sched)
    ensures (d.Stream(), y[yo..yo + l]) == Cipher.Crypt(dir, sched, old(d.Stream()), old(x[xo..xo + l]))
    ensures forall j | 0 <= j < y.Length && !(yo <= j < yo + l) :: y[j] == old(y[j])
  {
    ghost var src, done := x[xo..xo + l], [];
    ghost var whole := Cipher.Crypt(dir, sched, d.Stream(), src);
    ProgressStart(dir, sched, d.Stream(), src);
    i, done := CryptWords(dir, s, d, x, xo, l, y, yo, sched, src, whole);
    CryptTail(dir, i, s, d, x, xo, l, y, yo, sched, src, whole, done);
  }

  lemma ProgressStart(dir: Cipher.Direction, sched: Cipher.Schedule, st: Cipher.Stream, src: seq<octet>)
    ensures Progress(dir, sched, Cipher.Crypt(dir, sched, st, src), src, st, [])
  {
    var rest := Cipher.Crypt(dir, sched, st, src).1;
    assert [] + rest == rest && src[0..] == src;
  }

  lemma ProgressEnd(dir: Cipher.Direction, sched: Cipher.Schedule, whole: Output, src: seq<octet>, now: Cipher.Stream, done: seq<octet>)
    requires Progress(dir, sched, whole, src, now, done) && |done| == |src|
    ensures whole == (now, done)
  {
    assert src[|done|..] == [];
    assert done + [] == done;
  }

  /** helix_encrypt: -1 for a context that holds no key, else the ciphertext at c and the MAC
      at m. Plaintext and ciphertext may be the same region. */
  method Encrypt(s: StaticContext, d: DynamicContext, p: array<octet>, po: nat, l: nat,
                 c: array<octet>, co: nat, m: array<octet>, mo: nat, ghost sched: Cipher.Schedule) returns (rc: int)
    requires Implements(s, d, sched)
    requires Region(p, po, l) && Region(c, co, l) && SameOrDisjoint(p, po, c, co, l)
    requires Region(m, mo, MAC_LEN) && Disjoint(c, co, l, m, mo, MAC_LEN)
    modifies d.z, d`iplus8, c, m
    ensures Implements(s, d, sched)
    ensures rc == if s.magic == Cipher.MAGIC then 0 else -1
    ensures rc == -1 ==> d.Stream() == old(d.Stream()) && c[..] == old(c[..]) && m[..] == old(m[..])
    ensures rc == 0 ==>
      var (st, out) := Cipher.Encrypt(sched, old(d.Stream()), old(p[po..po + l]));
      c[co..co + l] == out && (d.Stream(), m[mo..mo + MAC_LEN]) == Cipher.Mac(sched, st, l)
    ensures forall j | 0 <= j < c.Length && !(co <= j < co + l) && !(c == m && mo <= j < mo + MAC_LEN) :: c[j] == old(c[j])
    ensures forall j | 0 <= j < m.Length && !(mo <= j < mo + MAC_LEN) && !(c == m && co <= j < co + l) :: m[j] == old(m[j])
  {
    if s.magic != Cipher.MAGIC {
      return -1;
    }
    var i := CryptMessage(Cipher.Sealing, s, d, p, po, l, c, co, sched);
    ghost var out := c[co..co + l];
    GenerateMac(s, d, l - i, m, mo, sched, l);
    assert c[co..co + l] == out;
    rc := 0;
  }

  /** helix_decrypt, likewise. */
  method Decrypt(s: StaticContext, d: DynamicContext, c: array<octet>, co: nat, l: nat,
                 p: array<octet>, po: nat, m: array<octet>, mo: nat, ghost sched: Cipher.Schedule) returns (rc: int)
    requires Implements(s, d, sched)
    requires Region(c, co, l) && Region(p, po, l) && SameOrDisjoint(c, co, p, po, l)
    requires Region(m, mo, MAC_LEN) && Disjoint(p, po, l, m, mo, MAC_LEN)
    modifies d.z, d`iplus8, p, m
    ensures Implements(s, d, sched)
    ensures rc == if s.magic == Cipher.MAGIC then 0 else -1
    ensures rc == -1 ==> d.Stream() == old(d.Stream()) && p[..] == old(p[..]) && m[..] == old(m[..])
    ensures rc == 0 ==>
      var (st, out) := Cipher.Decrypt(sched, old(d.Stream()), old(c[co..co + l]));
      p[po..po + l] == out && (d.Stream(), m[mo..mo + MAC_LEN]) == Cipher.Mac(sched, st, l)
    ensures forall j | 0 <= j < p.Length && !(po <= j < po + l) && !(p == m && mo <= j < mo + MAC_LEN) :: p[j] == old(p[j])
    ensures forall j | 0 <= j < m.Length && !(mo <= j < mo + MAC_LEN) && !(p == m && po <= j < po + l) :: m[j] == old(m[j])
  {
    if s.magic != Cipher.MAGIC {
      return -1;
    }
    var i := CryptMessage(Cipher.Opening, s, d, c, co, l, p, po, sched);
    ghost var out := p[po..po + l];
    GenerateMac(s, d, l - i, m, mo, sched, l);
    assert p[po..po + l] == out;
    rc := 0;
  }

  /** helix_encrypt on a buffer, in place. */
  method EncryptBuffer(s: StaticContext, d: DynamicContext, x: array<octet>, ghost sched: Cipher.Schedule, ghost st: Cipher.Stream)
    returns (m: array<octet>)
    requires Implements(s, d, sched) && s.magic == Cipher.MAGIC && d.Stream() == st
    modifies d.z, d`iplus8, x
    ensures fresh(m) && m.Length == MAC_LEN && d.Valid()
    ensures var (now, out) := Cipher.Crypt(Cipher.Sealing, sched, st, old(x[..]));
      x[..] == out && (d.Stream(), m[..]) == Cipher.Mac(sched, now, x.Length)
  {
    m := new octet[MAC_LEN](_ => 0);
    WholeBuffer(x);
    var rc := Encrypt(s, d, x, 0, x.Length, x, 0, m, 0, sched);
    WholeBuffer(x);
    WholeBuffer(m);
  }

  /** helix_decrypt on a buffer, in place. */
  method DecryptBuffer(s: StaticContext, d: DynamicContext, x: array<octet>, ghost sched: Cipher.Schedule, ghost st: Cipher.Stream)
    returns (m: array<octet>)
    requires Implements(s, d, sched) && s.magic == Cipher.MAGIC && d.Stream() == st
    modifies d.z, d`iplus8, x
    ensures fresh(m) && m.Length == MAC_LEN && d.Valid()
    ensures var (now, out) := Cipher.Crypt(Cipher.Opening, sched, st, old(x[..]));
      x[..] == out && (d.Stream(), m[..]) == Cipher.Mac(sched, now, x.Length)
  {
    m := new octet[MAC_LEN](_ => 0);
    WholeBuffer(x);
    var rc := Decrypt(s, d, x, 0, x.Length, x, 0, m, 0, sched);
    WholeBuffer(x);
    WholeBuffer(m);
  }

  lemma WholeBuffer(x: array<octet>)
    ensures x[0..0 + x.Length] == x[..]
  {
  }

  /** A context that holds a key, and a nonce. */
  ghost predicate Ready(s: StaticContext, d: DynamicContext, n: seq<octet>, f: Key.BlockFunction)
    reads s, s.k, s.x0, d
  {
    Apart(s, d) && IsBlock(f) && |n| == NONCE_LEN && s.magic == Cipher.MAGIC && s.k[..] == s.x0[..]
  }

  /** The schedule and the first stream of a key and a nonce. */
  ghost predicate IsFor(k: seq<word>, l: nat, n: seq<octet>, f: Key.BlockFunction, sched: Cipher.Schedule, st: Cipher.Stream)
    requires |k| == 8 && |n| == NONCE_LEN
  {
    sched == Cipher.OptimizedFor(f, k, NonceWords(n), l) && st == Cipher.Setup(sched, k, NonceWords(n))
  }

  /** helix_nonce and helix_encrypt on a buffer, in place. */
  method Send(s: StaticContext, d: DynamicContext, x: array<octet>, n: seq<octet>, ghost f: Key.BlockFunction,
              ghost sched: Cipher.Schedule, ghost st: Cipher.Stream, ghost whole: Output)
    returns (m: array<octet>)
    requires Ready(s, d, n, f) && IsFor(s.k[..], s.l, n, f, sched, st)
    requires whole == Cipher.Crypt(Cipher.Sealing, sched, st, x[..])
    modifies d.n, d.x1, d.z, d`iplus8, x
    ensures fresh(m) && m.Length == MAC_LEN && Ready(s, d, n, f) && s.k[..] == old(s.k[..])
    ensures x[..] == whole.1 && (d.Stream(), m[..]) == Cipher.Mac(sched, whole.0, x.Length)
  {
    SetNonce(s, d, n, f);
    m := EncryptBuffer(s, d, x, sched, st);
  }

  /** helix_nonce and helix_decrypt on a buffer, in place. */
  method Receive(s: StaticContext, d: DynamicContext, x: array<octet>, n: seq<octet>, ghost f: Key.BlockFunction,
              ghost sched: Cipher.Schedule, ghost st: Cipher.Stream, ghost whole: Output)
    returns (m: array<octet>)
    requires Ready(s, d, n, f) && IsFor(s.k[..], s.l, n, f, sched, st)
    requires whole == Cipher.Crypt(Cipher.Opening, sched, st, x[..])
    modifies d.n, d.x1, d.z, d`iplus8, x
    ensures fresh(m) && m.Length == MAC_LEN && d.Valid()
    ensures x[..] == whole.1 && (d.Stream(), m[..]) == Cipher.Mac(sched, whole.0, x.Length)
  {
    SetNonce(s, d, n, f);
    m := DecryptBuffer(s, d, x, sched, st);
  }

  lemma BufferComesBack(sched: Cipher.Schedule, st: Cipher.Stream, p: seq<octet>, c: seq<octet>, now: Cipher.Stream)
    requires Cipher.Crypt(Cipher.Sealing, sched, st, p) == (now, c)
    ensures Cipher.Crypt(Cipher.Opening, sched, st, c) == (now, p)
  {
    Cipher.DecryptUndoesEncrypt(sched, st, p);
  }

  /** The message back from what was sent. */
  method ReceiveBack(s: StaticContext, d: DynamicContext, x: array<octet>, n: seq<octet>, ghost f: Key.BlockFunction,
                     ghost sched: Cipher.Schedule, ghost st: Cipher.Stream, ghost whole: Output, ghost p: seq<octet>)
    returns (m: array<octet>)
    requires Ready(s, d, n, f) && IsFor(s.k[..], s.l, n, f, sched, st)
    requires whole == Cipher.Crypt(Cipher.Sealing, sched, st, p) && x[..] == whole.1
    modifies d.n, d.x1, d.z, d`iplus8, x
    ensures fresh(m) && m.Length == MAC_LEN && d.Valid()
    ensures x[..] == p && (d.Stream(), m[..]) == Cipher.Mac(sched, whole.0, |p|)
  {
    BufferComesBack(sched, st, p, whole.1, whole.0);
    m := Receive(s, d, x, n, f, sched, st, (whole.0, p));
  }

  /** The round trip with the values that the cipher computes named beforehand. */
  method RoundTripFor(s: StaticContext, d: DynamicContext, x: array<octet>, n: seq<octet>, ghost f: Key.BlockFunction,
                   ghost sched: Cipher.Schedule, ghost st: Cipher.Stream, ghost whole: Output)
    returns (sent: array<octet>, received: array<octet>, ghost end: Cipher.Stream)
    requires Ready(s, d, n, f) && IsFor(s.k[..], s.l, n, f, sched, st)
    requires whole == Cipher.Crypt(Cipher.Sealing, sched, st, x[..])
    modifies d.n, d.x1, d.z, d`iplus8, x
    ensures x[..] == old(x[..]) && received[..] == sent[..]
    ensures d.Valid() && d.Stream() == end
    ensures (end, sent[..]) == Cipher.Mac(sched, whole.0, x.Length)
  {
    ghost var p := x[..];
    sent := Send(s, d, x, n, f, sched, st, whole);
    end := d.Stream();
    received := ReceiveBack(s, d, x, n, f, sched, st, whole, p);
  }

  /** A message sent and received in one buffer under one key and nonce: the plaintext, the MAC
      and the final state come back, whatever the length of the message. */
  method RoundTrip(s: StaticContext, d: DynamicContext, x: array<octet>, n: seq<octet>, ghost f: Key.BlockFunction)
    returns (sent: array<octet>, received: array<octet>, ghost end: Cipher.Stream)
    requires Ready(s, d, n, f)
    modifies d.n, d.x1, d.z, d`iplus8, x
    ensures x[..] == old(x[..]) && received[..] == sent[..]
    ensures d.Valid() && d.Stream() == end
    ensures IsSealOf(s.k[..], s.l, n, f, old(x[..]), sent[..], end)
  {
    ghost var p := x[..];
    ghost var sched, st, whole := CipherOf(s.k[..], s.l, n, f, p);
    sent, received, end := RoundTripFor(s, d, x, n, f, sched, st, whole);
  }

  /** The same from the key octets, for every key of at most 32 octets. */
  method RoundTripUnderKey(u: seq<octet>, n: seq<octet>, x: array<octet>, ghost f: Key.BlockFunction)
    returns (sent: array<octet>, received: array<octet>)
    requires IsBlock(f) && |u| <= 32 && |n| == NONCE_LEN
    modifies x
    ensures x[..] == old(x[..]) && received[..] == sent[..]
  {
    var s, d := NewContexts(u, n, f);
    ghost var end;
    sent, received, end := RoundTrip(s, d, x, n, f);
  }

  /** helix_setkey, helix_nonce and helix_encrypt: the ciphertext and the MAC of a message. */
  method SealUnderKey(u: seq<octet>, n: seq<octet>, p: seq<octet>, ghost f: Key.BlockFunction)
    returns (c: array<octet>, m: array<octet>)
    requires IsBlock(f) && |u| <= 32 && |n| == NONCE_LEN
    ensures fresh(c) && fresh(m)
    ensures var k, w := Key.WorkingKey(f, u), NonceWords(n); var sealed := Cipher.Seal(Cipher.OptimizedFor(f, k, w, |u|), k, w, p);
      c[..] == sealed.text && m[..] == sealed.mac
  {
    c := new octet[|p|](i requires 0 <= i < |p| => p[i]);
    assert c[..] == p;
    var s, d := NewContexts(u, n, f);
    m := SealBuffer(s, d, c, n, f);
  }

  method SealBuffer(s: StaticContext, d: DynamicContext, x: array<octet>, n: seq<octet>, ghost f: Key.BlockFunction)
    returns (m: array<octet>)
    requires Ready(s, d, n, f)
    modifies d.n, d.x1, d.z, d`iplus8, x
    ensures fresh(m)
    ensures var k, w := old(s.k[..]), NonceWords(n); var sealed := Cipher.Seal(Cipher.OptimizedFor(f, k, w, s.l), k, w, old(x[..]));
      x[..] == sealed.text && m[..] == sealed.mac
  {
    ghost var p, k := x[..], s.k[..];
    ghost var sched, st, whole := CipherOf(k, s.l, n, f, p);
    m := Send(s, d, x, n, f, sched, st, whole);
    WholeIsSealed(k, s.l, n, f, p, sched, st, whole, m[..], d.Stream());
  }

  lemma WholeIsSealed(k: seq<word>, l: nat, n: seq<octet>, f: Key.BlockFunction, p: seq<octet>, sched: Cipher.Schedule,
                      st: Cipher.Stream, whole: Output, mac: seq<octet>, end: Cipher.Stream)
    requires |k| == 8 && |n| == NONCE_LEN && IsFor(k, l, n, f, sched, st)
    requires whole == Cipher.Crypt(Cipher.Sealing, sched, st, p) && (end, mac) == Cipher.Mac(sched, whole.0, |p|)
    ensures var sealed := Cipher.Seal(Cipher.OptimizedFor(f, k, NonceWords(n), l), k, NonceWords(n), p);
      sealed == Cipher.Sealed(whole.1, mac, end)
  {
  }

  method NewContexts(u: seq<octet>, ghost n: seq<octet>, ghost f: Key.BlockFunction) returns (s: StaticContext, d: DynamicContext)
    requires IsBlock(f) && |u| <= 32 && |n| == NONCE_LEN
    ensures Ready(s, d, n, f) && s.k[..] == Key.WorkingKey(f, u) && s.l == |u|
    ensures fresh(s) && fresh(s.k) && fresh(s.x0) && fresh(d) && fresh(d.n) && fresh(d.z) && fresh(d.x1)
  {
    d := new DynamicContext();
    s := SetKey(null, u, f);
  }

  /** The MAC and the final stream are those of sealing the message. */
  ghost predicate IsSealOf(k: seq<word>, l: nat, n: seq<octet>, f: Key.BlockFunction, p: seq<octet>, mac: seq<octet>,
                           end: Cipher.Stream)
    requires |k| == 8 && |n| == NONCE_LEN
  {
    var sealed := Cipher.Seal(Cipher.OptimizedFor(f, k, NonceWords(n), l), k, NonceWords(n), p);
    mac == sealed.mac && end == sealed.end
  }

  lemma CipherOf(k: seq<word>, l: nat, n: seq<octet>, f: Key.BlockFunction, p: seq<octet>)
    returns (sched: Cipher.Schedule, st: Cipher.Stream, whole: Output)
    requires |k| == 8 && |n| == NONCE_LEN
    ensures IsFor(k, l, n, f, sched, st) && whole == Cipher.Crypt(Cipher.Sealing, sched, st, p)
    ensures forall mac, end {:trigger IsSealOf(k, l, n, f, p, mac, end)} ::
      IsSealOf(k, l, n, f, p, mac, end) <==> (end, mac) == Cipher.Mac(sched, whole.0, |p|)
  {
    sched := Cipher.OptimizedFor(f, k, NonceWords(n), l);
    st := Cipher.Setup(sched, k, NonceWords(n));
    whole := Cipher.Crypt(Cipher.Sealing, sched, st, p);
  }

  lemma XorZero(w: word)
    ensures Xor(w, 0) == w
  {
  }
}
