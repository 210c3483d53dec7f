/** Runs of the block function put together from blocks whose results are known. */
module HelixPath {
  import opened Words
  import opened HelixBlock
  import opened HelixKey
  import Sequences
  import opened HelixCipher

  /** Four blocks in a row. */
  lemma FourBlocks(s: Schedule, i: nat, z: State, z1: State, z2: State, z3: State, z4: State, p: word, p1: word, p2: word, p3: word)
    requires i + 4 < W64
    requires s.f(z, s.x0(i), s.x1(i), p) == z1 && s.f(z1, s.x0(i + 1), s.x1(i + 1), p1) == z2
    requires s.f(z2, s.x0(i + 2), s.x1(i + 2), p2) == z3 && s.f(z3, s.x0(i + 3), s.x1(i + 3), p3) == z4
    ensures Run(s, Stream(z, i), [p, p1, p2, p3]) == (Stream(z4, i + 4), [z.z0, z1.z0, z2.z0, z3.z0])
  {
    TwoBlocks(s, i, z, z1, z2, p, p1);
    TwoBlocks(s, i + 2, z2, z3, z4, p2, p3);
    RunOfTwo(s, Stream(z, i), [p, p1], [p2, p3]);
    TwoPairs(p, p1, p2, p3);
    TwoPairs(z.z0, z1.z0, z2.z0, z3.z0);
  }

  lemma TwoPairs(a: word, b: word, c: word, d: word)
    ensures [a, b] + [c, d] == [a, b, c, d]
  {
  }

  lemma TwoBlocks(s: Schedule, i: nat, z: State, z1: State, z2: State, p: word, p1: word)
    requires i + 2 < W64
    requires s.f(z, s.x0(i), s.x1(i), p) == z1 && s.f(z1, s.x0(i + 1), s.x1(i + 1), p1) == z2
    ensures Run(s, Stream(z, i), [p, p1]) == (Stream(z2, i + 2), [z.z0, z1.z0])
  {
    RunMore(s, Stream(z1, i + 1), p1, [], Stream(z2, i + 2), Stream(z2, i + 2), []);
    RunMore(s, Stream(z, i), p, [p1] + [], Stream(z1, i + 1), Stream(z2, i + 2), [z1.z0] + []);
    assert [p] + ([p1] + []) == [p, p1] && [z.z0] + ([z1.z0] + []) == [z.z0, z1.z0];
  }

  /** One block before others. */
  lemma RunMore(s: Schedule, st: Stream, p: word, ps: seq<word>, next: Stream, end: Stream, ks: seq<word>)
    requires st.i + 1 < W64 && next == Stream(s.f(st.z, s.x0(st.i), s.x1(st.i), p), st.i + 1)
    requires Run(s, next, ps) == (end, ks)
    ensures Run(s, st, [p] + ps) == (end, [st.z.z0] + ks)
  {
    OneBlock(s, st, p, ps);
  }

  lemma OneBlock(s: Schedule, st: Stream, p: word, ps: seq<word>)
    ensures var (end, ks) := Run(s, Step(s, st, p), ps);
      Run(s, st, [p] + ps) == (end, [st.z.z0] + ks)
  {
    assert ([p] + ps)[1..] == ps;
  }

  lemma {:induction false} RunOfTwo(s: Schedule, st: Stream, ps: seq<word>, qs: seq<word>)
    ensures var (mid, ks) := Run(s, st, ps); var (end, ls) := Run(s, mid, qs);
      Run(s, st, ps + qs) == (end, ks + ls)
    decreases |ps|
  {
    if ps == [] {
      var ls := Run(s, st, qs).1;
      assert ps + qs == qs && [] + ls == ls;
    } else {
      var p, rest, next := ps[0], ps[1..], Step(s, st, ps[0]);
      assert ps == [p] + rest;
      RunOfTwo(s, next, rest, qs);
      OneBlock(s, st, p, rest);
      OneBlock(s, st, p, rest + qs);
      Sequences.Regroup([p], rest, qs);
      Sequences.Regroup([st.z.z0], Run(s, next, rest).1, Run(s, Run(s, next, rest).0, qs).1);
    }
  }

  /** One mixing round, and one more after others. */
  lemma RoundIs(f: BlockFunction, l: nat, a: seq<word>, b: seq<word>, z: State, w: word)
    requires |a| == |b| == 4 && w == Low(l + 64) && f(State(a[0], a[1], a[2], a[3], w), 0, 0, 0) == z
    ensures MixRound(f, l, a + b) == [Xor(z.z0, b[0]), Xor(z.z1, b[1]), Xor(z.z2, b[2]), Xor(z.z3, b[3])] + a
  {
    assert (a + b)[..4] == a && (a + b)[4..] == b;
    assert RoundFunction(f, l, a) == [z.z0, z.z1, z.z2, z.z3];
    assert MixRound(f, l, a + b) == XorFour(RoundFunction(f, l, a), b) + a;
  }

  lemma MixOnce(f: BlockFunction, l: nat, w: seq<word>, rounds: nat, v: seq<word>, v': seq<word>)
    requires |w| == |v| == 8 && Mix(f, l, w, rounds) == v && MixRound(f, l, v) == v'
    ensures Mix(f, l, w, rounds + 1) == v'
  {
  }
}
