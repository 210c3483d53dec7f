/** gsmd() of state.c: one request to a state manager, sent again until it is answered or the
    time is used up. */
module GsmdClient {
  import opened Bytes
  import opened GsmReply
  import Nonce

  /** Less than 250 ms left is too little for another try. */
  const LEAST: int := 250_000_000

  /** One turn of the loop; spent is the time since the last reading of the clock. */
  datatype Turn =
    | SendAgain(spent: nat)
    | SendError
    | PollAgain(spent: nat)
    | PollError
    | PollTimeout(spent: nat)
    | RecvAgain(spent: nat)
    | RecvRefused
    | RecvError
    | Reply(d: Datagram, spent: nat)

  /** Waiting: the loop is not finished after the given turns. */
  datatype Result = Answer(d: Datagram) | Failed(signal: bool) | Waiting

  /** What state_t keeps of a conversation with a state manager. */
  class Conversation {
    var seqno: uint32
    const n: nat
    const active: nat

    constructor (n: nat, active: nat)
      ensures this.n == n && this.active == active
    {
      this.n, this.active, seqno := n, active, 0;
    }
  }

  // ---- what a conversation looks like from outside ------------------------

  /** The loop goes round again after this turn. */
  predicate Retries(username: string, seqno: uint32, t: Turn)
    requires |username| <= MAX_USERNAME_LEN
  {
    t.SendAgain? || t.PollAgain? || t.PollTimeout? || t.RecvAgain? ||
    (t.Reply? && Classify(username, seqno, t.d) in {Nak, Stale})
  }

  predicate IsNak(username: string, seqno: uint32, t: Turn)
    requires |username| <= MAX_USERNAME_LEN
  {
    t.Reply? && Classify(username, seqno, t.d) == Nak
  }

  predicate IsAck(username: string, seqno: uint32, t: Turn)
    requires |username| <= MAX_USERNAME_LEN
  {
    t.Reply? && Classify(username, seqno, t.d) == Ack
  }

  function Spent(t: Turn): nat {
    match t
    case SendError => 0
    case PollError => 0
    case RecvRefused => 0
    case RecvError => 0
    case SendAgain(spent) => spent
    case PollAgain(spent) => spent
    case PollTimeout(spent) => spent
    case RecvAgain(spent) => spent
    case Reply(_, spent) => spent
  }

  /** The time left after k turns. */
  function Left(timeout: int, turns: seq<Turn>, k: nat): int
    requires k <= |turns|
  {
    if k == 0 then timeout else Left(timeout, turns, k - 1) - Spent(turns[k - 1])
  }

  /** The first k turns all lead to another turn. */
  ghost predicate Reaches(username: string, seqno: uint32, timeout: int, turns: seq<Turn>, k: nat)
    requires |username| <= MAX_USERNAME_LEN
  {
    k <= |turns| &&
    forall j: nat | j < k :: Retries(username, seqno, turns[j]) && Left(timeout, turns, j) >= LEAST
  }

  /** The loop ends after k turns: for lack of time, or with the turn that follows. */
  ghost predicate EndsAt(username: string, seqno: uint32, timeout: int, turns: seq<Turn>, k: nat)
    requires |username| <= MAX_USERNAME_LEN
  {
    && Reaches(username, seqno, timeout, turns, k)
    && (Left(timeout, turns, k) < LEAST || (k < |turns| && !Retries(username, seqno, turns[k])))
  }

  /** A manager that said no, and so is alive, within the first k turns. */
  ghost predicate Refused(username: string, seqno: uint32, turns: seq<Turn>, k: nat)
    requires |username| <= MAX_USERNAME_LEN
  {
    exists j: nat :: j < k && j < |turns| && IsNak(username, seqno, turns[j])
  }

  lemma OneTurnOn(username: string, seqno: uint32, timeout: int, turns: seq<Turn>, k: nat)
    requires |username| <= MAX_USERNAME_LEN && k < |turns| && Reaches(username, seqno, timeout, turns, k)
    ensures Reaches(username, seqno, timeout, turns, k + 1) <==>
      Retries(username, seqno, turns[k]) && Left(timeout, turns, k) >= LEAST
    ensures Refused(username, seqno, turns, k + 1) <==>
      Refused(username, seqno, turns, k) || IsNak(username, seqno, turns[k])
  {
  }

  /** Turns of at most 250 ms, such as a poll of 200 ms makes likely, do not overrun the limit. */
  lemma EndsInTime(username: string, seqno: uint32, timeout: nat, turns: seq<Turn>, k: nat)
    requires |username| <= MAX_USERNAME_LEN && EndsAt(username, seqno, timeout, turns, k)
    requires forall j | 0 <= j < |turns| :: Spent(turns[j]) <= LEAST
    ensures Left(timeout, turns, k) >= 0
    ensures k < |turns| && Left(timeout, turns, k) >= LEAST ==> Left(timeout, turns, k + 1) >= 0
  {
    if k > 0 {
      assert Left(timeout, turns, k - 1) >= LEAST;
    }
  }

  // ---- the call -----------------------------------------------------------

  /** The number of the request: a get draws a new one, a put goes on from its get. */
  method NextSeq(nonce: Nonce.Counter, c: Conversation, command: char)
    requires nonce.Valid()
    modifies nonce, c`seqno
    ensures nonce.Valid() && nonce.calls == old(nonce.calls) + if command == 'G' then 1 else 0
    ensures c.seqno == if command == 'G' then Nonce.Number(old(nonce.calls), false) else ToU32(old(c.seqno) + 1)
  {
    if command == 'G' {
      c.seqno := nonce.Nonce32();
    } else {
      c.seqno := ToU32(c.seqno + 1);
    }
  }

  /** A get and the put that follows it. */
  method GetThenPut(nonce: Nonce.Counter, c: Conversation)
    requires nonce.Valid()
    modifies nonce, c`seqno
    ensures nonce.Valid() && nonce.calls == old(nonce.calls) + 1
    ensures c.seqno == Nonce.Number(old(nonce.calls), true)
  {
    NextSeq(nonce, c, 'G');
    NextSeq(nonce, c, 'P');
  }

  /** One turn: over, with a result, or on to the next. */
  method TakeTurn(c: Conversation, username: string, t: Turn, failover: bool) returns (over: bool, r: Result, stillFailover: bool)
    requires |username| <= MAX_USERNAME_LEN
    ensures over <==> !Retries(username, c.seqno, t)
    ensures over ==> r == EndOf(c, username, t, failover)
    ensures !over ==> stillFailover == (failover && !IsNak(username, c.seqno, t))
  {
    over, r, stillFailover := true, Failed(false), failover;
    if t.SendError? || t.PollError? || t.RecvError? {
      return;
    }
    if t.RecvRefused? {
      r := Failed(failover && c.n == 2 && c.active == 0);
      return;
    }
    if t.Reply? {
      var verdict := Classify(username, c.seqno, t.d);
      if verdict == Ack {
        r := Answer(t.d);
        return;
      } else if verdict == Malformed {
        return;
      } else if verdict == Nak {
        stillFailover := false;
      }
    }
    over := false;
  }

  /** How a turn that is the last one ends the call. */
  function EndOf(c: Conversation, username: string, t: Turn, failover: bool): Result
    requires |username| <= MAX_USERNAME_LEN
    reads c
  {
    if IsAck(username, c.seqno, t) then Answer(t.d)
    else Failed(t.RecvRefused? && failover && c.n == 2 && c.active == 0)
  }

  /** A call that ends after k turns tells the failover thread: the primary, which has a
      backup, let the time run out or refused the connection, and sent no NAK. */
  ghost predicate Signals(c: Conversation, username: string, timeout: int, turns: seq<Turn>, k: nat)
    requires |username| <= MAX_USERNAME_LEN && k <= |turns|
    reads c
  {
    && c.n == 2 && c.active == 0 && !Refused(username, c.seqno, turns, k)
    && (Left(timeout, turns, k) < LEAST || (k < |turns| && turns[k].RecvRefused?))
  }

  /** The call succeeds with the acknowledgement in turn k. */
  ghost predicate AnsweredAt(username: string, seqno: uint32, timeout: int, turns: seq<Turn>, k: nat)
    requires |username| <= MAX_USERNAME_LEN
  {
    && k < |turns| && Reaches(username, seqno, timeout, turns, k)
    && Left(timeout, turns, k) >= LEAST && IsAck(username, seqno, turns[k])
  }

  /** The call. It succeeds exactly when, in time and before anything fatal, an
      acknowledgement of this very number comes; otherwise, once it ends, it fails, and signals
      the failover thread exactly under the condition above. */
  method Gsmd(c: Conversation, username: string, timeLimit: int, turns: seq<Turn>) returns (r: Result)
    requires |username| <= MAX_USERNAME_LEN
    ensures r.Waiting? <==> !exists k: nat :: EndsAt(username, c.seqno, timeLimit, turns, k)
    ensures r.Answer? <==> exists k: nat :: AnsweredAt(username, c.seqno, timeLimit, turns, k)
    ensures forall k: nat | AnsweredAt(username, c.seqno, timeLimit, turns, k) :: r == Answer(turns[k].d)
    ensures r.Failed? ==> forall k: nat | EndsAt(username, c.seqno, timeLimit, turns, k) ::
      r.signal == Signals(c, username, timeLimit, turns, k)
  {
    var timeout, failover, i := timeLimit, true, 0;
    while timeout >= LEAST
      invariant Reaches(username, c.seqno, timeLimit, turns, i) && timeout == Left(timeLimit, turns, i)
      invariant failover <==> !Refused(username, c.seqno, turns, i)
      decreases |turns| - i
    {
      if i == |turns| {
        NotYet(username, c.seqno, timeLimit, turns);
        return Waiting;
      }
      var over, still;
      over, r, still := TakeTurn(c, username, turns[i], failover);
      if over {
        EndsHere(username, c.seqno, timeLimit, turns, i);
        assert AnsweredAt(username, c.seqno, timeLimit, turns, i) <==> IsAck(username, c.seqno, turns[i]);
        return;
      }
      OneTurnOn(username, c.seqno, timeLimit, turns, i);
      timeout, failover, i := timeout - Spent(turns[i]), still, i + 1;
    }
    EndsHere(username, c.seqno, timeLimit, turns, i);
    r := Failed(failover && c.n == 2 && c.active == 0);
  }

  lemma NotYet(username: string, seqno: uint32, timeout: int, turns: seq<Turn>)
    requires |username| <= MAX_USERNAME_LEN && Reaches(username, seqno, timeout, turns, |turns|)
    requires Left(timeout, turns, |turns|) >= LEAST
    ensures forall k: nat :: !EndsAt(username, seqno, timeout, turns, k) && !AnsweredAt(username, seqno, timeout, turns, k)
  {
    forall k: nat
      ensures !EndsAt(username, seqno, timeout, turns, k) && !AnsweredAt(username, seqno, timeout, turns, k)
    {
      assert k < |turns| ==> Retries(username, seqno, turns[k]) && Left(timeout, turns, k) >= LEAST;
    }
  }

  /** The end of a call is the only one, and an answer can only come there. */
  lemma EndsHere(username: string, seqno: uint32, timeout: int, turns: seq<Turn>, i: nat)
    requires |username| <= MAX_USERNAME_LEN && EndsAt(username, seqno, timeout, turns, i)
    ensures exists k: nat :: EndsAt(username, seqno, timeout, turns, k)
    ensures forall k: nat | EndsAt(username, seqno, timeout, turns, k) :: k == i
    ensures forall k: nat | AnsweredAt(username, seqno, timeout, turns, k) :: k == i
  {
    forall k: nat | AnsweredAt(username, seqno, timeout, turns, k) ensures k == i {
      assert EndsAt(username, seqno, timeout, turns, k);
    }
  }

  // ---- the call, told by what comes in ------------------------------------

  /** The datagram is as long as a reply to this user must be. */
  predicate IsWhole(username: string, d: Datagram) {
    d.rlen >= 35 + |username|
  }

  /** A NAK of this request. */
  predicate SaysNo(username: string, seqno: uint32, t: Turn) {
    t.Reply? && IsWhole(username, t.d) && IsReply('N', username, seqno, t.d)
  }

  /** An acknowledgement of this request. */
  predicate SaysYes(username: string, seqno: uint32, t: Turn) {
    t.Reply? && IsWhole(username, t.d) && IsReply('A', username, seqno, t.d)
  }

  /** A turn that takes its time and ends nothing: nothing sent or received, a reply to another
      request, or a NAK. */
  predicate Passes(username: string, seqno: uint32, t: Turn, time: nat) {
    || t == SendAgain(time) || t == PollAgain(time) || t == PollTimeout(time) || t == RecvAgain(time)
    || (t.Reply? && t.spent == time && IsWhole(username, t.d) && Sized(username, t.d) && t.d.seqno != seqno)
    || (SaysNo(username, seqno, t) && t.spent == time)
  }

  function Sum(times: seq<nat>): nat {
    if times == [] then 0 else Sum(times[..|times| - 1]) + times[|times| - 1]
  }

  /** The first turns pass, one for each time, and each begins with at least 250 ms left. */
  ghost predicate AllPass(username: string, seqno: uint32, timeLimit: int, turns: seq<Turn>, times: seq<nat>) {
    && |times| <= |turns|
    && forall j | 0 <= j < |times| ::
         Passes(username, seqno, turns[j], times[j]) && timeLimit - Sum(times[..j]) >= 250_000_000
  }

  lemma PassRetries(username: string, seqno: uint32, t: Turn, time: nat)
    requires |username| <= MAX_USERNAME_LEN && Passes(username, seqno, t, time)
    ensures Retries(username, seqno, t) && Spent(t) == time
  {
    if t.Reply? {
      ClassifyExactly(username, seqno, t.d);
    }
  }

  lemma {:induction false} LeftIsRest(username: string, seqno: uint32, timeLimit: int, turns: seq<Turn>, times: seq<nat>, k: nat)
    requires |username| <= MAX_USERNAME_LEN && AllPass(username, seqno, timeLimit, turns, times) && k <= |times|
    ensures Left(timeLimit, turns, k) == timeLimit - Sum(times[..k])
  {
    if k > 0 {
      LeftIsRest(username, seqno, timeLimit, turns, times, k - 1);
      PassRetries(username, seqno, turns[k - 1], times[k - 1]);
      assert times[..k][..k - 1] == times[..k - 1];
    }
  }

  lemma AllPassReaches(username: string, seqno: uint32, timeLimit: int, turns: seq<Turn>, times: seq<nat>)
    requires |username| <= MAX_USERNAME_LEN && AllPass(username, seqno, timeLimit, turns, times)
    ensures Reaches(username, seqno, timeLimit, turns, |times|)
    ensures Left(timeLimit, turns, |times|) == timeLimit - Sum(times)
    ensures Refused(username, seqno, turns, |times|) <==> exists j :: 0 <= j < |times| && SaysNo(username, seqno, turns[j])
  {
    assert times[..|times|] == times;
    LeftIsRest(username, seqno, timeLimit, turns, times, |times|);
    forall j: nat | j < |times|
      ensures Retries(username, seqno, turns[j]) && Left(timeLimit, turns, j) >= LEAST
      ensures IsNak(username, seqno, turns[j]) <==> SaysNo(username, seqno, turns[j])
    {
      PassRetries(username, seqno, turns[j], times[j]);
      LeftIsRest(username, seqno, timeLimit, turns, times, j);
      if turns[j].Reply? {
        ClassifyExactly(username, seqno, turns[j].d);
      }
    }
  }

  /** What the call returns after turns that pass: out of time, or with the turn that follows. A
      NAK among them does not end the call; it only keeps the failover thread asleep. */
  method GsmdAfter(c: Conversation, username: string, timeLimit: int, turns: seq<Turn>, ghost times: seq<nat>) returns (r: Result)
    requires |username| <= MAX_USERNAME_LEN && AllPass(username, c.seqno, timeLimit, turns, times)
    ensures var k, rest := |times|, timeLimit - Sum(times);
      var signal := c.n == 2 && c.active == 0 && !exists j :: 0 <= j < k && SaysNo(username, c.seqno, turns[j]);
      && (rest < 250_000_000 ==> r == Failed(signal))
      && (rest >= 250_000_000 && k == |turns| ==> r.Waiting?)
      && (rest >= 250_000_000 && k < |turns| ==>
            && (SaysYes(username, c.seqno, turns[k]) ==> r == Answer(turns[k].d))
            && (turns[k].RecvRefused? ==> r == Failed(signal))
            && (turns[k].SendError? || turns[k].PollError? || turns[k].RecvError? ==> r == Failed(false))
            && (turns[k].Reply? && !SaysYes(username, c.seqno, turns[k]) && !Passes(username, c.seqno, turns[k], turns[k].spent) ==>
                  r == Failed(false)))
  {
    r := Gsmd(c, username, timeLimit, turns);
    EndsAfter(username, c.seqno, timeLimit, turns, times);
  }

  lemma EndsAfter(username: string, seqno: uint32, timeLimit: int, turns: seq<Turn>, times: seq<nat>)
    requires |username| <= MAX_USERNAME_LEN && AllPass(username, seqno, timeLimit, turns, times)
    ensures Reaches(username, seqno, timeLimit, turns, |times|) && Left(timeLimit, turns, |times|) == timeLimit - Sum(times)
    ensures var k := |times|;
      && (Refused(username, seqno, turns, k) <==> exists j :: 0 <= j < k && SaysNo(username, seqno, turns[j]))
      && (k < |turns| && turns[k].Reply? ==>
            && (IsAck(username, seqno, turns[k]) <==> SaysYes(username, seqno, turns[k]))
            && (Retries(username, seqno, turns[k]) <==> Passes(username, seqno, turns[k], turns[k].spent)))
      && (EndsAt(username, seqno, timeLimit, turns, k) ==>
            forall i: nat | EndsAt(username, seqno, timeLimit, turns, i) || AnsweredAt(username, seqno, timeLimit, turns, i) :: i == k)
      && (k == |turns| && timeLimit - Sum(times) >= LEAST ==> !exists i: nat :: EndsAt(username, seqno, timeLimit, turns, i))
  {
    var k := |times|;
    AllPassReaches(username, seqno, timeLimit, turns, times);
    if k < |turns| && turns[k].Reply? {
      ClassifyExactly(username, seqno, turns[k].d);
    }
    if EndsAt(username, seqno, timeLimit, turns, k) {
      EndsHere(username, seqno, timeLimit, turns, k);
    } else if k == |turns| {
      NotYet(username, seqno, timeLimit, turns);
    }
  }
}
