/** nonce.c: the sequence numbers of requests. nonce32 is one atomic step, so any interleaving
    of the threads that call it is one sequence of calls. */
module Nonce {
  import opened Bytes

  /** The state after a number of calls. */
  function SeqAfter(calls: nat): uint32 {
    if calls == 0 then TWO32 - 2 else ToU32(SeqAfter(calls - 1) + 2)
  }

  class Counter {
    var seqno: uint32
    ghost var calls: nat

    ghost predicate Valid()
      reads this
    {
      seqno == SeqAfter(calls)
    }

    /** nonce_init, the part that concerns seqno. */
    constructor ()
      ensures Valid() && calls == 0
    {
      seqno := ToU32(-2);
      calls := 0;
    }

    method Nonce32() returns (n: uint32)
      requires Valid()
      modifies this
      ensures Valid() && calls == old(calls) + 1
      ensures n == seqno == Drawn(old(calls))
    {
      DrawnIsNext(calls);
      seqno := ToU32(seqno + 2);
      calls := calls + 1;
      n := seqno;
    }
  }

  /** What call i returns, counting from 0. */
  function Drawn(i: nat): uint32 {
    ToU32(2 * i)
  }

  lemma {:induction false} DrawnIsNext(i: nat)
    ensures SeqAfter(i + 1) == Drawn(i)
  {
    if i > 0 {
      DrawnIsNext(i - 1);
      PlusTwo(2 * (i - 1));
    }
  }

  lemma PlusTwo(x: nat)
    ensures ToU32(ToU32(x) + 2) == ToU32(x + 2)
  {
  }

  lemma DrawnIsDoubled(i: nat)
    ensures Drawn(i) == 2 * (i % TWO31)
  {
    var q := i / TWO31;
    assert 2 * i == TWO32 * q + 2 * (i % TWO31);
  }

  /** Two calls return the same number exactly when 2^31 calls, or a multiple, lie between. */
  lemma DrawnAgain(i: nat, j: nat)
    requires i <= j
    ensures Drawn(i) == Drawn(j) <==> (j - i) % TWO31 == 0
  {
    DrawnIsDoubled(i);
    DrawnIsDoubled(j);
    var d := j / TWO31 - i / TWO31;
    assert j - i == TWO31 * d + (j % TWO31 - i % TWO31);
  }

  /** The number of a request: a get or a ping draws one, a put takes its get's plus one. */
  function Number(draw: nat, put: bool): uint32 {
    if put then ToU32(Drawn(draw) + 1) else Drawn(draw)
  }

  lemma NumbersDiffer(i: nat, p: bool, j: nat, q: bool)
    requires i < TWO31 && j < TWO31
    ensures Number(i, p) == Number(j, q) <==> i == j && p == q
    ensures Number(i, p) % 2 == if p then 1 else 0
  {
    DrawnIsDoubled(i);
    DrawnIsDoubled(j);
  }

  /** All gets, pings and puts of the first n draws have different numbers exactly when n is at
      most 2^31: the next draw repeats the first. */
  lemma NumbersDifferExactly(n: nat)
    ensures (forall i: nat, j: nat, p, q | i < n && j < n && (i, p) != (j, q) :: Number(i, p) != Number(j, q))
      <==> n <= TWO31
  {
    if n <= TWO31 {
      forall i: nat, j: nat, p, q | i < n && j < n && (i, p) != (j, q) ensures Number(i, p) != Number(j, q) {
        NumbersDiffer(i, p, j, q);
      }
    } else {
      DrawnAgain(0, TWO31);
      assert Number(0, false) == Number(TWO31, false);
    }
  }
}
