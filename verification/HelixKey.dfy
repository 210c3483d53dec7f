/** The key mixer of helix_setkey (helix.c): an eight-round Feistel network over
    eight key words, here as a function on a window of eight words that slides
    from k[32..39] down to k[0..7]. */
module HelixKey {
  import opened Words
  import opened HelixBlock

  const ROUNDS := 8

  type BlockFunction = (State, word, word, word) -> State

  /** The Feistel function: one block from four key words and the key length. */
  function RoundFunction(f: BlockFunction, l: nat, q: seq<word>): (r: seq<word>)
    requires |q| == 4
    ensures |r| == 4
  {
    var z := f(State(q[0], q[1], q[2], q[3], Low(l + 64)), 0, 0, 0);
    [z.z0, z.z1, z.z2, z.z3]
  }

  function XorFour(a: seq<word>, b: seq<word>): (c: seq<word>)
    requires |a| == |b| == 4
    ensures |c| == 4
  {
    [Xor(a[0], b[0]), Xor(a[1], b[1]), Xor(a[2], b[2]), Xor(a[3], b[3])]
  }

  /** The window after one round: four new words in front, the last four dropped. */
  function MixRound(f: BlockFunction, l: nat, w: seq<word>): (r: seq<word>)
    requires |w| == 8
    ensures |r| == 8
  {
    XorFour(RoundFunction(f, l, w[..4]), w[4..]) + w[..4]
  }

  function Mix(f: BlockFunction, l: nat, w: seq<word>, rounds: nat): (r: seq<word>)
    requires |w| == 8
    ensures |r| == 8
    decreases rounds
  {
    if rounds == 0 then w else MixRound(f, l, Mix(f, l, w, rounds - 1))
  }

  function UnmixRound(f: BlockFunction, l: nat, w: seq<word>): (r: seq<word>)
    requires |w| == 8
    ensures |r| == 8
  {
    w[4..] + XorFour(RoundFunction(f, l, w[4..]), w[..4])
  }

  function Unmix(f: BlockFunction, l: nat, w: seq<word>, rounds: nat): (r: seq<word>)
    requires |w| == 8
    ensures |r| == 8
    decreases rounds
  {
    if rounds == 0 then w else Unmix(f, l, UnmixRound(f, l, w), rounds - 1)
  }

  lemma XorFourCancel(a: seq<word>, b: seq<word>)
    requires |a| == |b| == 4
    ensures XorFour(a, XorFour(a, b)) == b
  {
    forall i | 0 <= i < 4 ensures Xor(a[i], Xor(a[i], b[i])) == b[i] {
      XorCancel(b[i], a[i]);
    }
    var c := XorFour(a, XorFour(a, b));
    assert c[0] == b[0] && c[1] == b[1] && c[2] == b[2] && c[3] == b[3];
  }

  lemma MixRoundInvertible(f: BlockFunction, l: nat, w: seq<word>)
    requires |w| == 8
    ensures UnmixRound(f, l, MixRound(f, l, w)) == w
    ensures MixRound(f, l, UnmixRound(f, l, w)) == w
  {
    XorFourCancel(RoundFunction(f, l, w[..4]), w[4..]);
    XorFourCancel(RoundFunction(f, l, w[4..]), w[..4]);
    var m, u := MixRound(f, l, w), UnmixRound(f, l, w);
    assert m[4..] == w[..4];
    assert m[..4] == XorFour(RoundFunction(f, l, w[..4]), w[4..]);
    assert u[..4] == w[4..];
    assert u[4..] == XorFour(RoundFunction(f, l, w[4..]), w[..4]);
    assert w == w[..4] + w[4..];
  }

  lemma {:induction false} UnmixUndoesMix(f: BlockFunction, l: nat, w: seq<word>, rounds: nat)
    requires |w| == 8
    ensures Unmix(f, l, Mix(f, l, w, rounds), rounds) == w
    decreases rounds
  {
    if rounds == 0 {
    } else {
      UnmixUndoesMix(f, l, w, rounds - 1);
      MixRoundInvertible(f, l, Mix(f, l, w, rounds - 1));
    }
  }

  lemma {:induction false} MixUndoesUnmix(f: BlockFunction, l: nat, w: seq<word>, rounds: nat)
    requires |w| == 8
    ensures Mix(f, l, Unmix(f, l, w, rounds), rounds) == w
    decreases rounds
  {
    if rounds == 0 {
    } else {
      MixUndoesUnmix(f, l, UnmixRound(f, l, w), rounds - 1);
      MixRoundInvertible(f, l, w);
    }
  }

  // ---- from key octets to the working key ---------------------------------

  /** The key, zero-extended to 32 octets. */
  function Extended(u: seq<octet>): (e: seq<octet>)
    requires |u| <= 32
    ensures |e| == 32
  {
    u + seq(32 - |u|, _ => 0)
  }

  function KeyWords(e: seq<octet>): (w: seq<word>)
    requires |e| == 32
    ensures |w| == 8
  {
    seq(8, i requires 0 <= i < 8 => FromLE(e[4 * i..4 * i + 4]))
  }

  /** k[0..7] of helix_setkey. */
  function WorkingKey(f: BlockFunction, u: seq<octet>): (k: seq<word>)
    requires |u| <= 32
    ensures |k| == 8
  {
    Mix(f, |u|, KeyWords(Extended(u)), ROUNDS)
  }

  lemma KeyWordsInjective(d: seq<octet>, e: seq<octet>)
    requires |d| == |e| == 32 && KeyWords(d) == KeyWords(e)
    ensures d == e
  {
    forall i | 0 <= i < 32 ensures d[i] == e[i] {
      var j := i / 4;
      var a, b := d[4 * j..4 * j + 4], e[4 * j..4 * j + 4];
      assert KeyWords(d)[j] == FromLE(a) && KeyWords(e)[j] == FromLE(b);
      ToFromLE(a);
      ToFromLE(b);
      assert a == ToLE(FromLE(a))[..4] == b;
      assert d[i] == a[i - 4 * j] && e[i] == b[i - 4 * j];
    }
  }

  /** Two keys of one length share a working key only if they are the same key. */
  lemma WorkingKeyInjective(f: BlockFunction, u: seq<octet>, v: seq<octet>)
    requires |u| == |v| <= 32
    requires WorkingKey(f, u) == WorkingKey(f, v)
    ensures u == v
  {
    var d, e := Extended(u), Extended(v);
    UnmixUndoesMix(f, |u|, KeyWords(d), ROUNDS);
    UnmixUndoesMix(f, |v|, KeyWords(e), ROUNDS);
    KeyWordsInjective(d, e);
    assert u == d[..|u|] && v == e[..|v|];
  }

  function Octets(w: seq<word>): (s: seq<octet>)
    ensures |s| == 4 * |w|
  {
    if w == [] then [] else ToLE(w[0]) + Octets(w[1..])
  }

  lemma {:induction false} OctetsAt(w: seq<word>, i: nat)
    requires i < |w|
    ensures Octets(w)[4 * i..4 * i + 4] == ToLE(w[i])
  {
    if i == 0 {
      assert Octets(w)[..4] == ToLE(w[0]);
    } else {
      OctetsAt(w[1..], i - 1);
      assert Octets(w)[4..] == Octets(w[1..]);
      assert Octets(w)[4 * i..4 * i + 4] == Octets(w)[4..][4 * (i - 1)..4 * (i - 1) + 4];
    }
  }

  lemma OctetsAre(ws: seq<word>, o: seq<octet>)
    requires |o| == 4 * |ws| && forall i | 0 <= i < |ws| :: ToLE(ws[i]) == o[4 * i..4 * i + 4]
    ensures Octets(ws) == o
  {
    forall k | 0 <= k < |o| ensures Octets(ws)[k] == o[k] {
      var i := k / 4;
      OctetsAt(ws, i);
      assert Octets(ws)[k] == Octets(ws)[4 * i..4 * i + 4][k - 4 * i] && o[k] == o[4 * i..4 * i + 4][k - 4 * i];
    }
  }

  lemma KeyWordsOfOctets(w: seq<word>)
    requires |w| == 8
    ensures KeyWords(Octets(w)) == w
  {
    forall i | 0 <= i < 8 ensures KeyWords(Octets(w))[i] == w[i] {
      OctetsAt(w, i);
      FromToLE(w[i]);
    }
  }

  /** Every eight-word value is the working key of a full-length key. */
  lemma WorkingKeySurjective(f: BlockFunction, k: seq<word>) returns (u: seq<octet>)
    requires |k| == 8
    ensures |u| == 32 && WorkingKey(f, u) == k
  {
    var w := Unmix(f, 32, k, ROUNDS);
    u := Octets(w);
    assert Extended(u) == u;
    KeyWordsOfOctets(w);
    MixUndoesUnmix(f, 32, k, ROUNDS);
  }
}
