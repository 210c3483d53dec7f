/** Many clients, a network that drops, repeats, delays and reorders datagrams, and state
    managers that echo the number of the request they answer: what an acknowledgement tells the
    client that accepts it (state.c, nonce.c). */
module Protocol {
  import opened Bytes
  import opened GsmReply
  import opened Nonce

  datatype Request = Request(seqno: uint32, draw: nat, put: bool, text: string)

  /** A genuine reply, as a manager sent it. */
  datatype Message = Message(seqno: uint32, text: string)

  /** What a thread is doing. Between: it has its state and has not yet put it back. */
  datatype Client = Resting | Asking(username: string, q: Request) | Between(username: string, draw: nat)

  /** sent, acked: the requests any client sent and any manager acknowledged. replies: what the
      network may deliver, any number of times and at any time. accepted: the requests for which
      gsmd() returned success. */
  datatype System = System(
    draws: nat,
    clients: seq<Client>,
    sent: set<Request>,
    acked: set<Request>,
    replies: set<Message>,
    accepted: set<Request>)

  datatype Event =
    | Get(t: nat, username: string, text: string)
    | Put(t: nat, text: string)
    | Serve(q: Request, text: string)
    | Receive(t: nat, d: Datagram)
    | GiveUp(t: nat)

  predicate IsAck(text: string) {
    text != "" && text[0] == 'A'
  }

  /** The datagram carries the message; behind it the buffer may hold anything. */
  predicate Carries(d: Datagram, m: Message) {
    d.seqno == m.seqno && m.text != "" && m.text <= d.pmsg
  }

  predicate IsUsername(s: string) {
    |s| <= MAX_USERNAME_LEN
  }

  /** A genuine datagram is one that a manager sent; others fail the integrity check. */
  ghost predicate Enabled(s: System, e: Event) {
    match e
    case Get(t, username, _) => t < |s.clients| && s.clients[t].Resting? && IsUsername(username)
    case Put(t, _) => t < |s.clients| && s.clients[t].Between?
    case Serve(q, _) => q in s.sent
    case Receive(t, d) =>
      t < |s.clients| && s.clients[t].Asking? && IsUsername(s.clients[t].username) &&
      (d.genuine ==> exists m :: m in s.replies && Carries(d, m))
    case GiveUp(t) => t < |s.clients| && s.clients[t].Asking?
  }

  function NewRequest(draw: nat, put: bool, text: string): Request {
    Request(Number(draw, put), draw, put, text)
  }

  function Accept(s: System, t: nat): System
    requires t < |s.clients| && s.clients[t].Asking?
  {
    var c := s.clients[t];
    s.(accepted := s.accepted + {c.q},
       clients := s.clients[t := if c.q.put then Resting else Between(c.username, c.q.draw)])
  }

  ghost function Apply(s: System, e: Event): System
    requires Enabled(s, e)
  {
    match e
    case Get(t, username, text) =>
      var q := NewRequest(s.draws, false, text);
      s.(draws := s.draws + 1, sent := s.sent + {q}, clients := s.clients[t := Asking(username, q)])
    case Put(t, text) =>
      var q := NewRequest(s.clients[t].draw, true, text);
      s.(sent := s.sent + {q}, clients := s.clients[t := Asking(s.clients[t].username, q)])
    case Serve(q, text) =>
      s.(replies := s.replies + {Message(q.seqno, text)}, acked := if IsAck(text) then s.acked + {q} else s.acked)
    case Receive(t, d) =>
      (match Classify(s.clients[t].username, s.clients[t].q.seqno, d)
       case Ack => Accept(s, t)
       case Nak => s
       case Stale => s
       case Malformed => s.(clients := s.clients[t := Resting]))
    case GiveUp(t) =>
      s.(clients := s.clients[t := Resting])
  }

  ghost predicate Initial(s: System) {
    s.draws == 0 && s.sent == {} && s.acked == {} && s.replies == {} && s.accepted == {} &&
    forall i | 0 <= i < |s.clients| :: s.clients[i].Resting?
  }

  ghost predicate IsExecution(ss: seq<System>, es: seq<Event>) {
    && |ss| == |es| + 1 && Initial(ss[0])
    && forall i | 0 <= i < |es| :: Enabled(ss[i], es[i]) && ss[i + 1] == Apply(ss[i], es[i])
  }

  // ---- every request has a number of its own ------------------------------

  /** The draw whose put a client may still send. */
  function Owned(c: Client): Option<nat> {
    if c.Between? then Some(c.draw) else if c.Asking? && !c.q.put then Some(c.q.draw) else None
  }

  ghost predicate Numbered(s: System) {
    && (forall q | q in s.sent :: q.draw < s.draws && q.seqno == Number(q.draw, q.put))
    && (forall q, r | q in s.sent && r in s.sent && q.draw == r.draw && q.put == r.put :: q == r)
  }

  ghost predicate OwnersDiffer(s: System) {
    forall i, j | 0 <= i < j < |s.clients| && Owned(s.clients[i]).Some? :: Owned(s.clients[i]) != Owned(s.clients[j])
  }

  /** What a client owns was drawn, and its put was not sent. */
  ghost predicate OwnedUnsent(s: System) {
    && (forall c | c in s.clients && Owned(c).Some? :: Owned(c).value < s.draws)
    && (forall c, q | c in s.clients && Owned(c).Some? && q in s.sent && q.put :: q.draw != Owned(c).value)
  }

  ghost predicate Asked(s: System) {
    forall c | c in s.clients && c.Asking? :: c.q in s.sent
  }

  ghost predicate Orderly(s: System) {
    Numbered(s) && OwnersDiffer(s) && OwnedUnsent(s) && Asked(s)
  }

  lemma StepKeepsNumbers(s: System, e: Event)
    requires Orderly(s) && Enabled(s, e)
    ensures Numbered(Apply(s, e)) && Asked(Apply(s, e))
  {
    var s' := Apply(s, e);
    if e.Put? {
      assert s.clients[e.t] in s.clients;
    }
    forall c | c in s'.clients && c.Asking? ensures c.q in s'.sent {
      assert c in s.clients || c.q in s'.sent;
    }
  }

  lemma StepKeepsOwners(s: System, e: Event)
    requires Orderly(s) && Enabled(s, e)
    ensures OwnersDiffer(Apply(s, e)) && OwnedUnsent(Apply(s, e))
  {
    var s' := Apply(s, e);
    if !e.Serve? {
      var c := s.clients[e.t];
      assert c in s.clients;
      assert e.Get? || Owned(s'.clients[e.t]).None? || Owned(s'.clients[e.t]) == Owned(c);
      forall i | 0 <= i < |s.clients| ensures Owned(s.clients[i]).Some? ==> Owned(s.clients[i]).value < s.draws {
        assert s.clients[i] in s.clients;
      }
      if e.Put? {
        forall i | 0 <= i < |s.clients| && i != e.t ensures Owned(s.clients[i]) != Some(c.draw) {
          assert Owned(s.clients[i]) != Owned(s.clients[e.t]) by {
            if i < e.t { assert Owned(s.clients[i]).Some? ==> Owned(s.clients[i]) != Owned(s.clients[e.t]); }
          }
        }
      }
    }
  }

  lemma {:induction false} AlwaysOrderly(ss: seq<System>, es: seq<Event>, i: nat)
    requires IsExecution(ss, es) && i <= |es|
    ensures Orderly(ss[i])
  {
    if i > 0 {
      AlwaysOrderly(ss, es, i - 1);
      StepKeepsNumbers(ss[i - 1], es[i - 1]);
      StepKeepsOwners(ss[i - 1], es[i - 1]);
    } else {
      assert forall c | c in ss[0].clients :: c.Resting?;
    }
  }

  /** In every reachable state with at most 2^31 draws, no two requests share a number. */
  lemma NumbersAreUnique(ss: seq<System>, es: seq<Event>, i: nat, q: Request, r: Request)
    requires IsExecution(ss, es) && i <= |es| && ss[i].draws <= TWO31
    requires q in ss[i].sent && r in ss[i].sent
    ensures q.seqno == r.seqno <==> q == r
  {
    AlwaysOrderly(ss, es, i);
    NumbersDiffer(q.draw, q.put, r.draw, r.put);
  }

  // ---- what an acknowledgement means --------------------------------------

  /** Every reply has the number of a request; an acknowledging one that of a request some
      manager acknowledged. */
  ghost predicate Echoed(s: System) {
    forall m | m in s.replies :: exists q :: q in s.sent && q.seqno == m.seqno && (IsAck(m.text) ==> q in s.acked)
  }

  lemma StepKeepsEchoes(s: System, e: Event)
    requires Echoed(s) && Enabled(s, e)
    ensures Echoed(Apply(s, e))
  {
    var s' := Apply(s, e);
    forall m | m in s'.replies
      ensures exists q :: q in s'.sent && q.seqno == m.seqno && (IsAck(m.text) ==> q in s'.acked)
    {
      if m in s.replies {
        var q :| q in s.sent && q.seqno == m.seqno && (IsAck(m.text) ==> q in s.acked);
        assert q in s'.sent;
      } else {
        assert e.Serve? && e.q in s'.sent;
      }
    }
  }

  /** A reply that gsmd() takes for an acknowledgement of q is one, given to q. */
  lemma AckIsForThisRequest(s: System, t: nat, d: Datagram)
    requires Orderly(s) && Echoed(s) && s.draws <= TWO31 && Enabled(s, Receive(t, d))
    requires Classify(s.clients[t].username, s.clients[t].q.seqno, d) == Ack
    ensures s.clients[t].q in s.acked
  {
    var q := s.clients[t].q;
    assert s.clients[t] in s.clients;
    var m :| m in s.replies && Carries(d, m);
    assert m.text[0] == d.pmsg[0];
    var r :| r in s.sent && r.seqno == m.seqno && (IsAck(m.text) ==> r in s.acked);
    NumbersDiffer(q.draw, q.put, r.draw, r.put);
  }

  lemma {:induction false} AlwaysEchoed(ss: seq<System>, es: seq<Event>, i: nat)
    requires IsExecution(ss, es) && i <= |es|
    ensures Echoed(ss[i])
  {
    if i > 0 {
      AlwaysEchoed(ss, es, i - 1);
      StepKeepsEchoes(ss[i - 1], es[i - 1]);
    }
  }

  lemma {:induction false} AcceptedWereAcked(ss: seq<System>, es: seq<Event>, i: nat)
    requires IsExecution(ss, es) && i <= |es| && ss[i].draws <= TWO31
    ensures ss[i].accepted <= ss[i].acked
  {
    if i > 0 {
      DrawsGrow(ss[i - 1], es[i - 1]);
      AcceptedWereAcked(ss, es, i - 1);
      AlwaysOrderly(ss, es, i - 1);
      AlwaysEchoed(ss, es, i - 1);
      StepAcceptsAcked(ss[i - 1], es[i - 1]);
    }
  }

  lemma DrawsGrow(s: System, e: Event)
    requires Enabled(s, e)
    ensures s.draws <= Apply(s, e).draws
  {
  }

  lemma StepAcceptsAcked(s: System, e: Event)
    requires Orderly(s) && Echoed(s) && s.draws <= TWO31 && Enabled(s, e) && s.accepted <= s.acked
    ensures Apply(s, e).accepted <= Apply(s, e).acked
  {
    if e.Receive? && Classify(s.clients[e.t].username, s.clients[e.t].q.seqno, e.d) == Ack {
      AckIsForThisRequest(s, e.t, e.d);
    }
  }

  /** No confusion: whatever the network did, a put that its client believes acknowledged is a
      request that a manager acknowledged itself, and no late reply to the get before it, or to
      any other request, can have been taken for its answer. */
  lemma PutIsNotConfused(ss: seq<System>, es: seq<Event>, i: nat, q: Request)
    requires IsExecution(ss, es) && i <= |es| && ss[i].draws <= TWO31 && q in ss[i].accepted
    ensures q in ss[i].acked
    ensures forall r | r in ss[i].sent && r != q :: r.seqno != q.seqno
    ensures q.put ==> q.seqno % 2 == 1
  {
    AcceptedWereAcked(ss, es, i);
    AlwaysOrderly(ss, es, i);
    AcceptedWereSent(ss, es, i);
    forall r | r in ss[i].sent && r != q ensures r.seqno != q.seqno {
      NumbersAreUnique(ss, es, i, q, r);
    }
    NumbersDiffer(q.draw, q.put, q.draw, q.put);
  }

  lemma {:induction false} AcceptedWereSent(ss: seq<System>, es: seq<Event>, i: nat)
    requires IsExecution(ss, es) && i <= |es|
    ensures ss[i].accepted <= ss[i].sent
  {
    if i > 0 {
      AcceptedWereSent(ss, es, i - 1);
      AlwaysOrderly(ss, es, i - 1);
    }
  }

  // ---- requests do succeed ------------------------------------------------

  /** A request that is out, served by a manager that acknowledges it, and its reply received. */
  ghost function Answered(s: System, t: nat, q: Request, text: string, d: Datagram): System
    requires Enabled(s, Serve(q, text)) && Enabled(Apply(s, Serve(q, text)), Receive(t, d))
  {
    Apply(Apply(s, Serve(q, text)), Receive(t, d))
  }

  lemma AnswerIsAccepted(s: System, t: nat, username: string, q: Request, text: string, d: Datagram)
    requires t < |s.clients| && s.clients[t] == Asking(username, q) && |username| <= 31 && q in s.sent
    requires d.rlen >= 35 + |username| && IsReply('A', username, q.seqno, d) && text != "" && text <= d.pmsg
    ensures Enabled(s, Serve(q, text)) && Enabled(Apply(s, Serve(q, text)), Receive(t, d))
    ensures var s' := Answered(s, t, q, text, d);
      && s'.accepted == s.accepted + {q} && s'.acked == s.acked + {q} && s'.sent == s.sent && s'.draws == s.draws
      && s'.clients == s.clients[t := if q.put then Resting else Between(username, q.draw)]
  {
    ClassifyExactly(username, q.seqno, d);
    assert text[0] == d.pmsg[0] == (['A', ' '] + username)[0];
    assert Carries(d, Message(q.seqno, text));
  }

  /** What a datagram does to the client that receives it: an acknowledgement of its request is
      accepted, a NAK or a late reply leaves it waiting, anything else makes it give up. */
  lemma ReceiveExactly(s: System, t: nat, d: Datagram)
    requires Enabled(s, Receive(t, d)) && |s.clients[t].username| <= 31
    ensures var c, s' := s.clients[t], Apply(s, Receive(t, d));
      var whole := d.rlen >= 35 + |c.username|;
      && s'.sent == s.sent && s'.acked == s.acked && s'.replies == s.replies && s'.draws == s.draws
      && if whole && IsReply('A', c.username, c.q.seqno, d) then
           s'.accepted == s.accepted + {c.q} && s'.clients == s.clients[t := if c.q.put then Resting else Between(c.username, c.q.draw)]
         else if whole && (IsReply('N', c.username, c.q.seqno, d) || (Sized(c.username, d) && d.seqno != c.q.seqno)) then s' == s
         else s'.accepted == s.accepted && s'.clients == s.clients[t := Resting]
  {
    ClassifyExactly(s.clients[t].username, s.clients[t].q.seqno, d);
  }

  /** A resting client that gets and then puts, both acknowledged, has both accepted, with the
      numbers 2n and 2n + 1 of the draw n, and rests again. */
  lemma GetIsAccepted(s: System, t: nat, username: string, body: string, text: string, d: Datagram)
    requires t < |s.clients| && s.clients[t].Resting? && |username| <= 31 && d.rlen >= 35 + |username|
    requires IsReply('A', username, 2 * s.draws % 0x1_0000_0000, d) && text != "" && text <= d.pmsg
    ensures var q := Request(2 * s.draws % 0x1_0000_0000, s.draws, false, body);
      && Enabled(s, Get(t, username, body)) && q in Apply(s, Get(t, username, body)).sent
      && Enabled(Apply(s, Get(t, username, body)), Serve(q, text))
      && Enabled(Apply(Apply(s, Get(t, username, body)), Serve(q, text)), Receive(t, d))
      && var s' := Answered(Apply(s, Get(t, username, body)), t, q, text, d);
        s'.accepted == s.accepted + {q} && s'.clients == s.clients[t := Between(username, s.draws)]
  {
    AnswerIsAccepted(Apply(s, Get(t, username, body)), t, username, NewRequest(s.draws, false, body), text, d);
  }

  lemma PutIsAccepted(s: System, t: nat, username: string, draw: nat, body: string, text: string, d: Datagram)
    requires t < |s.clients| && s.clients[t] == Between(username, draw) && |username| <= 31 && d.rlen >= 35 + |username|
    requires IsReply('A', username, (2 * draw + 1) % 0x1_0000_0000, d) && text != "" && text <= d.pmsg
    ensures var q := Request((2 * draw + 1) % 0x1_0000_0000, draw, true, body);
      && Enabled(s, Put(t, body)) && q in Apply(s, Put(t, body)).sent
      && Enabled(Apply(s, Put(t, body)), Serve(q, text))
      && Enabled(Apply(Apply(s, Put(t, body)), Serve(q, text)), Receive(t, d))
      && var s' := Answered(Apply(s, Put(t, body)), t, q, text, d);
        s'.accepted == s.accepted + {q} && s'.clients == s.clients[t := Resting]
  {
    PutNumber(draw);
    AnswerIsAccepted(Apply(s, Put(t, body)), t, username, NewRequest(draw, true, body), text, d);
  }

  lemma PutNumber(draw: nat)
    ensures Number(draw, true) == (2 * draw + 1) % 0x1_0000_0000
  {
  }
}
