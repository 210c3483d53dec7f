/** The ping of failover_thread.c. Its text is written once, before the loop, and each round
    encrypts the buffer where it is: what the primary decrypts in a later round is not the
    request but what the earlier rounds left of it. */
module Ping {
  import opened Words
  import opened HelixCipher

  /** One round's nonce words and the key schedule for them. */
  datatype Round = Round(s: Schedule, n: seq<word>)

  /** "G !" and its NUL. */
  const REQUEST: seq<octet> := [0x47, 0x20, 0x21, 0]

  ghost predicate AreRounds(rounds: seq<Round>) {
    forall r | r in rounds :: |r.n| == 8
  }

  /** What a round does to the buffer; i is its number. */
  type Scramble = (nat, seq<octet>) -> seq<octet>

  function Scrambler(k: seq<word>, rounds: seq<Round>): Scramble
    requires |k| == 8
  {
    (i: nat, text) =>
      if i < |rounds| && |rounds[i].n| == 8 then Seal(rounds[i].s, k, rounds[i].n, text).text else text
  }

  /** The buffer after the first m rounds. */
  function Buffer(f: Scramble, request: seq<octet>, m: nat): seq<octet> {
    if m == 0 then request else f(m - 1, Buffer(f, request, m - 1))
  }

  /** What the primary reads in round m. */
  function Read(k: seq<word>, rounds: seq<Round>, m: nat): seq<octet>
    requires |k| == 8 && m < |rounds| && |rounds[m].n| == 8
  {
    var r := rounds[m];
    Open(r.s, k, r.n, Seal(r.s, k, r.n, Buffer(Scrambler(k, rounds), REQUEST, m)).text).text
  }

  /** The first keystream word of each round. */
  function FirstWords(k: seq<word>, rounds: seq<Round>): (ws: seq<word>)
    requires |k| == 8 && forall i | 0 <= i < |rounds| :: |rounds[i].n| == 8
    ensures |ws| == |rounds|
  {
    seq(|rounds|, i requires 0 <= i < |rounds| => Setup(rounds[i].s, k, rounds[i].n).z.z0)
  }

  /** The first m words, xored together. */
  function XorOfAll(ws: seq<word>, m: nat): word
    requires m <= |ws|
  {
    if m == 0 then 0 else Xor(XorOfAll(ws, m - 1), ws[m - 1])
  }

  /** A four-octet message is xored with the first keystream word. */
  lemma SealOfWord(s: Schedule, k: seq<word>, n: seq<word>, p: seq<octet>)
    requires |k| == |n| == 8 && |p| == 4
    ensures Seal(s, k, n, p).text == XorOctets(p, ToLE(Setup(s, k, n).z.z0))
  {
    var st := Setup(s, k, n);
    assert Chunk(p) == p;
    var rest := Crypt(Sealing, s, Step(s, st, FromLE(p)), p[4..]).1;
    assert rest == [];
  }

  lemma XorTwice(p: seq<octet>, a: word, b: word)
    requires |p| == 4
    ensures XorOctets(XorOctets(p, ToLE(a)), ToLE(b)) == XorOctets(p, ToLE(Xor(a, b)))
  {
    XorOfWords(a, b);
    forall i | 0 <= i < 4
      ensures XorOctets(XorOctets(p, ToLE(a)), ToLE(b))[i] == XorOctets(p, ToLE(Xor(a, b)))[i]
    {
      XorAssociative(p[i], ToLE(a)[i], ToLE(b)[i]);
    }
  }

  lemma XorAssociative(p: octet, a: octet, b: octet)
    ensures Xor8(Xor8(p, a), b) == Xor8(p, Xor8(a, b))
  {
  }

  lemma XorIsIdentity(p: seq<octet>, w: word)
    requires |p| == 4
    ensures XorOctets(p, ToLE(w)) == p <==> w == 0
  {
    var x, k := XorOctets(p, ToLE(w)), ToLE(w);
    forall i | 0 <= i < 4 ensures x[i] == p[i] <==> k[i] == 0 {
      XorZero(p[i], k[i]);
    }
    ZeroOctets(w);
  }

  lemma XorZero(p: octet, a: octet)
    ensures Xor8(p, a) == p <==> a == 0
  {
  }

  lemma ZeroOctets(w: word)
    ensures w == 0 <==> ToLE(w)[0] == 0 && ToLE(w)[1] == 0 && ToLE(w)[2] == 0 && ToLE(w)[3] == 0
  {
  }

  lemma {:induction false} BufferIsMasked(f: Scramble, ws: seq<word>, request: seq<octet>, m: nat)
    requires |request| == 4 && m <= |ws|
    requires forall i: nat, text | i < |ws| && |text| == 4 :: f(i, text) == XorOctets(text, ToLE(ws[i]))
    ensures Buffer(f, request, m) == XorOctets(request, ToLE(XorOfAll(ws, m)))
  {
    if m == 0 {
      XorIsIdentity(request, 0);
    } else {
      BufferIsMasked(f, ws, request, m - 1);
      XorTwice(request, XorOfAll(ws, m - 1), ws[m - 1]);
    }
  }

  lemma ScramblerMasks(k: seq<word>, rounds: seq<Round>)
    requires |k| == 8 && AreRounds(rounds)
    ensures var f, ws := Scrambler(k, rounds), FirstWords(k, rounds);
      forall i: nat, text | i < |ws| && |text| == 4 :: f(i, text) == XorOctets(text, ToLE(ws[i]))
  {
    var f, ws := Scrambler(k, rounds), FirstWords(k, rounds);
    forall i: nat, text: seq<octet> | i < |ws| && |text| == 4
      ensures f(i, text) == XorOctets(text, ToLE(ws[i]))
    {
      SealOfWord(rounds[i].s, k, rounds[i].n, text);
    }
  }

  /** The first ping is the request. A later one is the request exactly when the keystream
      words of all earlier rounds cancel. */
  lemma LaterPingIsRequestExactly(k: seq<word>, rounds: seq<Round>, m: nat)
    requires |k| == 8 && AreRounds(rounds) && m < |rounds|
    ensures Read(k, rounds, m) == REQUEST <==> XorOfAll(FirstWords(k, rounds), m) == 0
    ensures m == 0 ==> Read(k, rounds, m) == REQUEST
  {
    var f, ws := Scrambler(k, rounds), FirstWords(k, rounds);
    OpenUndoesSeal(rounds[m].s, k, rounds[m].n, Buffer(f, REQUEST, m));
    ScramblerMasks(k, rounds);
    BufferIsMasked(f, ws, REQUEST, m);
    XorIsIdentity(REQUEST, XorOfAll(ws, m));
  }
}
