/** failover_thread.c: a thread that watches a primary state manager after it has timed out,
    selects the backup, and goes back when the primary is well again. */
module Failover {
  import opened Bytes
  import opened GsmReply

  /** The timeouts of gsmd_t, in nanoseconds. */
  datatype Timeouts = Timeouts(failover: int, failback: int)

  datatype Phase = Sleeping | Polling

  /** active: 0 for the primary, 1 for the backup. seqno: of the current ping. */
  datatype Machine = Machine(phase: Phase, active: nat, timeout: int, seqno: uint32)

  /** What one turn of the polling loop meets. */
  datatype Result =
    | SendAgain
    | SendFatal
    | PollAgain
    | PollFatal
    | PollTimeout
    | RecvAgain
    | RecvRefused
    | RecvError
    | Reply(d: Datagram)

  /** Signal: sem_wait returns and nonce32 gives a number. Turn: now is the reading of the clock
      that the loop tests, later the one that a new timeout starts from. */
  datatype Event = Signal(now: int, seqno: uint32) | Turn(now: int, result: Result, later: int)

  // ---- one step -----------------------------------------------------------

  predicate IsFatal(r: Result) {
    r.SendFatal? || r.PollFatal?
  }

  /** A valid acknowledgement of the ping with this number. */
  predicate IsAck(seqno: uint32, r: Result) {
    r.Reply? && Judge("!", seqno, r.d) == Ack
  }

  /** What RESET_FAILBACK follows: any sign that the primary is not well. */
  predicate IsTrouble(seqno: uint32, r: Result) {
    r.PollTimeout? || r.RecvAgain? || r.RecvRefused? || r.RecvError? || (r.Reply? && !IsAck(seqno, r))
  }

  predicate Enabled(m: Machine, e: Event) {
    match e
    case Signal(_, _) => m.phase == Sleeping
    case Turn(_, _, _) => m.phase == Polling
  }

  function Step(g: Timeouts, m: Machine, e: Event): Machine {
    match e
    case Signal(now, seqno) => m.(phase := Polling, seqno := seqno, timeout := now + g.failover)
    case Turn(now, r, later) =>
      if now < m.timeout then
        if IsFatal(r) || (IsAck(m.seqno, r) && m.active == 0) then m.(phase := Sleeping)
        else if IsTrouble(m.seqno, r) && m.active == 1 then m.(timeout := later + g.failback)
        else m
      else if m.active == 0 then m.(active := 1, timeout := later + g.failback)
      else m.(active := 0, phase := Sleeping)
  }

  // ---- executions ---------------------------------------------------------

  datatype Execution = Execution(machines: seq<Machine>, events: seq<Event>)

  ghost predicate IsExecution(g: Timeouts, x: Execution) {
    && |x.machines| == |x.events| + 1
    && x.machines[0].phase == Sleeping && x.machines[0].active == 0
    && forall i | 0 <= i < |x.events| ::
         Enabled(x.machines[i], x.events[i]) && x.machines[i + 1] == Step(g, x.machines[i], x.events[i])
  }

  lemma {:induction false} ActiveIsBit(g: Timeouts, x: Execution, i: nat)
    requires IsExecution(g, x) && i <= |x.events|
    ensures x.machines[i].active <= 1
  {
    if i > 0 {
      ActiveIsBit(g, x, i - 1);
    }
  }

  predicate FailsOver(x: Execution, i: nat) {
    i + 1 < |x.machines| && x.machines[i].active == 0 && x.machines[i + 1].active == 1
  }

  predicate FailsBack(x: Execution, i: nat) {
    i + 1 < |x.machines| && x.machines[i].active == 1 && x.machines[i + 1].active == 0
  }

  // ---- failover -----------------------------------------------------------

  /** Turn j sees neither an acknowledgement of the ping nor a fatal error. */
  ghost predicate Unanswered(x: Execution, seqno: uint32, j: nat) {
    j < |x.events| && x.events[j].Turn? && !IsAck(seqno, x.events[j].result) && !IsFatal(x.events[j].result)
  }

  /** While the primary is active, polling has gone on, with one ping and one deadline, since
      some signal. */
  lemma {:induction false} PollingSince(g: Timeouts, x: Execution, i: nat) returns (w: nat)
    requires IsExecution(g, x) && i <= |x.events|
    requires x.machines[i].phase == Polling && x.machines[i].active == 0
    ensures w < i && x.events[w].Signal? && x.machines[w].active == 0
    ensures x.machines[i].seqno == x.events[w].seqno
    ensures x.machines[i].timeout == x.events[w].now + g.failover
    ensures forall j | w < j < i :: Unanswered(x, x.events[w].seqno, j) && x.events[j].now < x.events[w].now + g.failover
  {
    assert x.machines[i] == Step(g, x.machines[i - 1], x.events[i - 1]);
    if x.events[i - 1].Signal? {
      w := i - 1;
    } else {
      w := PollingSince(g, x, i - 1);
    }
  }

  /** The backup is selected only if, since a signal at least the failover timeout ago, no turn
      brought a valid acknowledgement of the ping sent then. */
  lemma FailoverNeedsSilence(g: Timeouts, x: Execution, i: nat) returns (w: nat)
    requires IsExecution(g, x) && FailsOver(x, i)
    ensures w < i && x.events[w].Signal? && x.machines[w].active == 0 && x.events[i].Turn?
    ensures x.events[i].now >= x.events[w].now + g.failover
    ensures forall j | w < j < i :: Unanswered(x, x.events[w].seqno, j) && x.events[j].now < x.events[w].now + g.failover
  {
    assert x.machines[i + 1] == Step(g, x.machines[i], x.events[i]);
    w := PollingSince(g, x, i);
  }

  /** An acknowledgement of the ping with this number, as the primary writes it. */
  predicate SaysYes(seqno: uint32, r: Result) {
    r.Reply? && IsReply('A', "!", seqno, r.d)
  }

  /** From a signal at w that finds the primary active, every turn up to the deadline brings no
      acknowledgement of the ping sent then and no fatal error, and turn i is the first after it. */
  ghost predicate Silence(g: Timeouts, x: Execution, w: nat, i: nat) {
    && w < i < |x.events| < |x.machines| && x.events[w].Signal? && x.machines[w].active == 0
    && (forall j | w < j < i ::
          x.events[j].Turn? && x.events[j].now < x.events[w].now + g.failover && Idles(x.events[w].seqno, x.events[j].result))
    && x.events[i].Turn? && x.events[i].now >= x.events[w].now + g.failover
  }

  predicate Idles(seqno: uint32, r: Result) {
    !r.SendFatal? && !r.PollFatal? && !SaysYes(seqno, r)
  }

  lemma YesIsAck(seqno: uint32, r: Result)
    ensures SaysYes(seqno, r) <==> IsAck(seqno, r)
  {
    if r.Reply? {
      JudgeExactly("!", seqno, r.d);
    }
  }

  lemma {:induction false} PollsOn(g: Timeouts, x: Execution, w: nat, i: nat, j: nat)
    requires IsExecution(g, x) && Silence(g, x, w, i) && w < j <= i
    ensures x.machines[j] == Machine(Polling, 0, x.events[w].now + g.failover, x.events[w].seqno)
  {
    assert x.machines[j] == Step(g, x.machines[j - 1], x.events[j - 1]);
    if w < j - 1 {
      PollsOn(g, x, w, i, j - 1);
      YesIsAck(x.events[w].seqno, x.events[j - 1].result);
    }
  }

  /** The backup is selected exactly when the primary was silent up to the deadline. */
  lemma FailoverExactly(g: Timeouts, x: Execution, i: nat)
    requires IsExecution(g, x)
    ensures FailsOver(x, i) <==> exists w: nat :: Silence(g, x, w, i)
  {
    if FailsOver(x, i) {
      var w := FailoverNeedsSilence(g, x, i);
      forall j | w < j < i ensures Idles(x.events[w].seqno, x.events[j].result) {
        assert Unanswered(x, x.events[w].seqno, j);
        YesIsAck(x.events[w].seqno, x.events[j].result);
      }
      assert Silence(g, x, w, i);
    }
    if w: nat :| Silence(g, x, w, i) {
      PollsOn(g, x, w, i, i);
      assert x.machines[i + 1] == Step(g, x.machines[i], x.events[i]);
    }
  }

  // ---- failback -----------------------------------------------------------

  /** Step i sets the timer: a wake-up, the failover itself, or trouble while the backup is
      active. */
  predicate Arms(x: Execution, i: nat) {
    i < |x.events| && i < |x.machines| &&
    match x.events[i]
    case Signal(_, _) => true
    case Turn(now, r, _) =>
      if now < x.machines[i].timeout then x.machines[i].active == 1 && !IsFatal(r) && IsTrouble(x.machines[i].seqno, r)
      else x.machines[i].active == 0
  }

  /** When the timer that step i sets runs out. */
  function Deadline(g: Timeouts, e: Event): int {
    match e
    case Signal(now, _) => now + g.failover
    case Turn(_, _, later) => later + g.failback
  }

  lemma {:induction false} LastArmed(g: Timeouts, x: Execution, i: nat) returns (w: nat)
    requires IsExecution(g, x) && i <= |x.events| && x.machines[i].phase == Polling
    ensures w < i && Arms(x, w) && x.machines[i].timeout == Deadline(g, x.events[w])
    ensures forall j | w < j < i :: !Arms(x, j) && x.events[j].Turn?
    ensures x.machines[i].active == x.machines[w + 1].active
  {
    ActiveIsBit(g, x, i - 1);
    assert x.machines[i] == Step(g, x.machines[i - 1], x.events[i - 1]);
    if Arms(x, i - 1) {
      w := i - 1;
    } else {
      w := LastArmed(g, x, i - 1);
    }
  }

  /** No send or poll fails for good while the backup is active. */
  ghost predicate NoFatalOnBackup(x: Execution) {
    forall i | 0 <= i < |x.events| && i < |x.machines| && x.machines[i].active == 1 && x.events[i].Turn? ::
      !IsFatal(x.events[i].result)
  }

  /** The backup is active only in the polling phase, unless such an error put it to sleep. */
  lemma {:induction false} BackupMeansPolling(g: Timeouts, x: Execution, i: nat)
    requires IsExecution(g, x) && NoFatalOnBackup(x) && i <= |x.events| && x.machines[i].active == 1
    ensures x.machines[i].phase == Polling
  {
    if i > 0 {
      ActiveIsBit(g, x, i - 1);
      assert x.machines[i] == Step(g, x.machines[i - 1], x.events[i - 1]);
      if x.machines[i - 1].active == 1 {
        BackupMeansPolling(g, x, i - 1);
      }
    }
  }

  /** The primary is selected again only when the timer has run out that was last set: by the
      failover or by trouble since, the failback timeout ago, or by a wake-up that found the
      backup active, the failover timeout ago. */
  lemma FailbackNeedsQuiet(g: Timeouts, x: Execution, i: nat) returns (w: nat)
    requires IsExecution(g, x) && FailsBack(x, i)
    ensures w < i && Arms(x, w) && x.machines[w + 1].active == 1 && x.events[i].Turn?
    ensures forall j | w < j < i :: !Arms(x, j) && x.events[j].Turn?
    ensures x.events[i].now >= Deadline(g, x.events[w])
    ensures x.events[w].Turn? ==> x.events[i].now >= x.events[w].later + g.failback
    ensures x.events[w].Signal? ==> x.machines[w].active == 1 && x.machines[w].phase == Sleeping
    ensures NoFatalOnBackup(x) ==> x.events[w].Turn?
  {
    assert x.machines[i + 1] == Step(g, x.machines[i], x.events[i]);
    w := LastArmed(g, x, i);
    assert x.machines[w + 1] == Step(g, x.machines[w], x.events[w]);
    if NoFatalOnBackup(x) && x.machines[w].active == 1 {
      BackupMeansPolling(g, x, w);
    }
  }

  /** Any sign that the primary is not well: no answer, an error, or a reply that is no
      acknowledgement of the ping. */
  predicate Troubled(seqno: uint32, r: Result) {
    r.PollTimeout? || r.RecvAgain? || r.RecvRefused? || r.RecvError? || (r.Reply? && !SaysYes(seqno, r))
  }

  /** Neither trouble nor the end of the polling phase, while the backup is active. */
  predicate Quiet(seqno: uint32, r: Result) {
    r.SendAgain? || r.PollAgain? || SaysYes(seqno, r)
  }

  /** Step w starts the timer of a failback: a failover, trouble while the backup is active, or a
      signal that finds it active. */
  ghost predicate Starts(x: Execution, w: nat) {
    w < |x.events| && w < |x.machines| &&
    match x.events[w]
    case Signal(_, _) => x.machines[w].active == 1
    case Turn(now, r, _) =>
      if now < x.machines[w].timeout then x.machines[w].active == 1 && Troubled(x.machines[w].seqno, r)
      else x.machines[w].active == 0
  }

  /** After step w starts the timer, every turn until it runs out is quiet, and turn i is the first
      after that. */
  ghost predicate Calm(g: Timeouts, x: Execution, w: nat, i: nat) {
    && w < i < |x.events| < |x.machines| && Starts(x, w) && x.events[i].Turn?
    && (forall j | w < j < i ::
          x.events[j].Turn? && x.events[j].now < Deadline(g, x.events[w]) && Quiet(x.machines[j].seqno, x.events[j].result))
    && x.events[i].now >= Deadline(g, x.events[w])
  }

  /** While the backup is active, the timer has run since some step, and all was quiet. */
  lemma {:induction false} CalmSince(g: Timeouts, x: Execution, i: nat) returns (w: nat)
    requires IsExecution(g, x) && i <= |x.events| && x.machines[i].phase == Polling && x.machines[i].active == 1
    ensures w < i && Starts(x, w) && x.machines[i].timeout == Deadline(g, x.events[w])
    ensures forall j | w < j < i ::
      x.events[j].Turn? && x.events[j].now < Deadline(g, x.events[w]) && Quiet(x.machines[j].seqno, x.events[j].result)
  {
    ActiveIsBit(g, x, i - 1);
    assert x.machines[i] == Step(g, x.machines[i - 1], x.events[i - 1]);
    if x.events[i - 1].Turn? {
      YesIsAck(x.machines[i - 1].seqno, x.events[i - 1].result);
    }
    if Starts(x, i - 1) {
      w := i - 1;
    } else {
      w := CalmSince(g, x, i - 1);
    }
  }

  lemma {:induction false} StaysOnBackup(g: Timeouts, x: Execution, w: nat, i: nat, j: nat)
    requires IsExecution(g, x) && Calm(g, x, w, i) && w < j <= i
    ensures x.machines[j].phase == Polling && x.machines[j].active == 1 && x.machines[j].timeout == Deadline(g, x.events[w])
  {
    assert x.machines[j] == Step(g, x.machines[j - 1], x.events[j - 1]);
    assert Enabled(x.machines[j - 1], x.events[j - 1]);
    if x.events[j - 1].Turn? {
      YesIsAck(x.machines[j - 1].seqno, x.events[j - 1].result);
    }
    if w < j - 1 {
      StaysOnBackup(g, x, w, i, j - 1);
    } else {
      ActiveIsBit(g, x, w);
    }
  }

  /** The primary is selected again exactly when the timer ran out in quiet: since it was started
      there were only interrupted sends and polls and acknowledgements of the ping. */
  lemma FailbackExactly(g: Timeouts, x: Execution, i: nat)
    requires IsExecution(g, x)
    ensures FailsBack(x, i) <==> exists w: nat :: Calm(g, x, w, i)
  {
    if FailsBack(x, i) {
      assert x.machines[i + 1] == Step(g, x.machines[i], x.events[i]);
      var w := CalmSince(g, x, i);
      assert Calm(g, x, w, i);
    }
    if w: nat :| Calm(g, x, w, i) {
      StaysOnBackup(g, x, w, i, i);
      assert x.machines[i + 1] == Step(g, x.machines[i], x.events[i]);
    }
  }

  // ---- how long the backup is kept ----------------------------------------

  /** The clock does not go back. */
  function Last(e: Event): int {
    match e
    case Signal(now, _) => now
    case Turn(_, _, later) => later
  }

  ghost predicate ClockAscends(x: Execution) {
    && (forall i | 0 <= i < |x.events| && x.events[i].Turn? :: x.events[i].now <= x.events[i].later)
    && (forall i, j | 0 <= i < j < |x.events| :: Last(x.events[i]) <= x.events[j].now)
  }

  /** A failback at b after the failover at f, with the backup active in between. */
  ghost predicate OneOutage(x: Execution, f: nat, b: nat) {
    f < b && FailsOver(x, f) && FailsBack(x, b) && b < |x.events| && forall i | f < i <= b :: x.machines[i].active == 1
  }

  ghost predicate Outage(g: Timeouts, x: Execution, f: nat, b: nat) {
    IsExecution(g, x) && ClockAscends(x) && OneOutage(x, f, b)
  }

  /** How long the backup is kept: for the failback timeout, unless a fatal error and then a late
      signal set the shorter failover timeout instead. */
  lemma BackupLasts(g: Timeouts, x: Execution, f: nat, b: nat)
    requires Outage(g, x, f, b)
    ensures x.events[f].Turn?
    ensures g.failover >= g.failback || NoFatalOnBackup(x) ==> x.events[b].now >= x.events[f].later + g.failback
    ensures x.events[b].now >= x.events[f].later + g.failback || x.events[b].now >= x.events[f].later + g.failover
  {
    assert x.machines[f + 1] == Step(g, x.machines[f], x.events[f]);
    assert Arms(x, f);
    var w := FailbackNeedsQuiet(g, x, b);
    assert w >= f;
    if f < w {
      assert Last(x.events[f]) <= x.events[w].now;
    }
  }

  /** Exactly when: in every execution the backup is kept for the failback timeout if and only if
      the failover timeout is not shorter. */
  lemma BackupLastsExactly(g: Timeouts)
    requires 0 < g.failover
    ensures (forall x, f: nat, b: nat | Outage(g, x, f, b) :: x.events[b].now >= Last(x.events[f]) + g.failback)
      <==> g.failover >= g.failback
  {
    if g.failover >= g.failback {
      forall x, f: nat, b: nat | Outage(g, x, f, b) ensures x.events[b].now >= Last(x.events[f]) + g.failback {
        BackupLasts(g, x, f, b);
      }
    } else {
      var x := FatalErrorHurriesFailback(g);
      assert Outage(g, x, 1, 4);
    }
  }

  /** Failover at time f, a fatal error at once, a late signal, and no answer from the primary. */
  function Hurried(g: Timeouts): seq<Event> {
    var f := g.failover;
    [ Signal(0, 0),
      Turn(f, PollTimeout, f),
      Turn(f, SendFatal, f),
      Signal(f, 2),
      Turn(f + f, PollTimeout, f + f) ]
  }

  /** With the shorter failover timeout there is an execution that goes back to the primary just
      that long after leaving it. */
  lemma FatalErrorHurriesFailback(g: Timeouts) returns (x: Execution)
    requires 0 < g.failover < g.failback
    ensures Outage(g, x, 1, 4) && x.events[1].Turn? && x.events[4].Turn?
    ensures x.events[4].now == x.events[1].later + g.failover
  {
    var f := g.failover;
    var m0 := Machine(Sleeping, 0, 0, 0);
    var m1 := Machine(Polling, 0, f, 0);
    var m2 := Machine(Polling, 1, f + g.failback, 0);
    var m3 := m2.(phase := Sleeping);
    var m4 := Machine(Polling, 1, f + f, 2);
    var m5 := Machine(Sleeping, 0, f + f, 2);
    x := Execution([m0, m1, m2, m3, m4, m5], Hurried(g));
  }

  // ---- requests on the primary --------------------------------------------

  const SECOND: int := 1_000_000_000

  /** A request that was begun on the primary before the failover at f, and that takes no longer
      than the configured timeout. */
  predicate OnPrimary(x: Execution, f: nat, timeout: nat, begun: int, lasted: nat) {
    f < |x.events| && begun <= Last(x.events[f]) && lasted <= timeout
  }

  /** Every such request is over when the primary is selected again. */
  ghost predicate RequestsEnd(g: Timeouts, timeout: nat) {
    forall x, f: nat, b: nat, begun: int, lasted: nat |
      Outage(g, x, f, b) && OnPrimary(x, f, timeout, begun, lasted) :: begun + lasted <= x.events[b].now
  }

  /** In an execution without fatal errors on the backup they end in time whatever the failover
      timeout is. */
  lemma RequestsEndBeforeFailback(g: Timeouts, x: Execution, f: nat, b: nat, timeout: nat, begun: int, lasted: nat)
    requires Outage(g, x, f, b) && (NoFatalOnBackup(x) || g.failover >= g.failback)
    requires g.failback == timeout + SECOND && OnPrimary(x, f, timeout, begun, lasted)
    ensures begun + lasted < x.events[b].now
  {
    BackupLasts(g, x, f, b);
  }

  /** In all executions they do if and only if the failover timeout is at least the timeout of a
      request. */
  lemma RequestsEndExactly(g: Timeouts, timeout: nat)
    requires 0 < g.failover && g.failback == timeout + SECOND
    ensures RequestsEnd(g, timeout) <==> g.failover >= timeout
  {
    if g.failover >= timeout {
      forall x, f: nat, b: nat, begun: int, lasted: nat |
        Outage(g, x, f, b) && OnPrimary(x, f, timeout, begun, lasted) ensures begun + lasted <= x.events[b].now
      {
        BackupLasts(g, x, f, b);
      }
    } else {
      var x := FatalErrorHurriesFailback(g);
      assert OnPrimary(x, 1, timeout, x.events[1].later, timeout);
    }
  }

  /** The timeouts that config.y sets, from the request timeout, the state timeout and a
      manager's own, zero where not given. */
  function Configured(timeout: nat, state: nat, own: nat): Option<Timeouts> {
    if StateTimeout(timeout, state, 0) < timeout + SECOND || StateTimeout(timeout, state, own) < timeout + SECOND then None
    else Some(Timeouts(StateTimeout(timeout, state, own) - timeout, timeout + SECOND))
  }

  /** The state timeout in force for a manager. */
  function StateTimeout(timeout: nat, state: nat, own: nat): nat {
    if own != 0 then own
    else if state != 0 then state
    else if 2 * timeout + SECOND < 30 * SECOND then 30 * SECOND
    else 2 * timeout + SECOND
  }

  /** A state timeout must exceed the request timeout by a second; the failover timeout is what it
      has left beyond a request. By default it is the larger of 30 s less a request and a request
      and a second. */
  lemma ConfiguredExactly(timeout: nat, state: nat, own: nat)
    ensures var c, least := Configured(timeout, state, own), timeout + 1_000_000_000;
      && (c.Some? <==> (state == 0 || state >= least) && (own == 0 || own >= least))
      && (c.Some? ==> c.value.failback == least)
      && (c.Some? && own != 0 ==> c.value.failover == own - timeout)
      && (c.Some? && own == 0 && state != 0 ==> c.value.failover == state - timeout)
      && (own == 0 && state == 0 ==>
            c.value.failover == if timeout < 14_500_000_000 then 30_000_000_000 - timeout else least)
  {
  }

  /** The promise as a test on the configuration: a manager's state timeout must be at least
      twice the request timeout. The default is. */
  lemma ConfigurationKeepsPromise(timeout: nat, state: nat, own: nat)
    requires Configured(timeout, state, own).Some?
    ensures RequestsEnd(Configured(timeout, state, own).value, timeout) <==> StateTimeout(timeout, state, own) >= 2 * timeout
    ensures state == 0 && own == 0 ==> RequestsEnd(Configured(timeout, state, own).value, timeout)
  {
    RequestsEndExactly(Configured(timeout, state, own).value, timeout);
  }

  // ---- the thread itself --------------------------------------------------

  class Gsmd {
    const n: nat
    var active: nat
    const timeouts: Timeouts

    constructor (n: nat, timeouts: Timeouts)
      ensures this.n == n && active == 0 && this.timeouts == timeouts
    {
      this.n, active, this.timeouts := n, 0, timeouts;
    }
  }

  /** One turn of the polling loop before the deadline. asleep: reset, that is back to sleep. */
  method PollOnce(gsmd: Gsmd, seqno: uint32, r: Result, later: int, timeout: int) returns (asleep: bool, newTimeout: int)
    ensures asleep <==> IsFatal(r) || (IsAck(seqno, r) && gsmd.active == 0)
    ensures !asleep ==> newTimeout == if IsTrouble(seqno, r) && gsmd.active == 1 then later + gsmd.timeouts.failback else timeout
  {
    asleep, newTimeout := false, timeout;
    if r.SendFatal? || r.PollFatal? {
      return true, timeout;
    }
    if r.SendAgain? || r.PollAgain? {
      return;
    }
    if r.Reply? {
      var verdict := Judge("!", seqno, r.d);
      if verdict == Ack {
        asleep := gsmd.active == 0;
        return;
      }
    }
    if gsmd.active == 1 {
      newTimeout := later + gsmd.timeouts.failback;
    }
  }

  /** The polling phase: from event start, polling, to the reset or the end of the events. */
  method Poll(gsmd: Gsmd, events: seq<Event>, start: nat, seqno: uint32, deadline: int, ghost x: Execution) returns (i: nat)
    requires IsExecution(gsmd.timeouts, x) && events == x.events && start <= |events|
    requires x.machines[start] == Machine(Polling, gsmd.active, deadline, seqno) && gsmd.active <= 1
    modifies gsmd`active
    ensures start <= i <= |events| && gsmd.active == x.machines[i].active <= 1
    ensures i < |events| ==> x.machines[i].phase == Sleeping
  {
    var timeout := deadline;
    i := start;
    while i < |events|
      invariant start <= i <= |events| && gsmd.active <= 1
      invariant x.machines[i] == Machine(Polling, gsmd.active, timeout, seqno)
    {
      var e := events[i];
      assert Enabled(x.machines[i], e) && x.machines[i + 1] == Step(gsmd.timeouts, x.machines[i], e);
      i := i + 1;
      if e.now < timeout {
        var reset;
        reset, timeout := PollOnce(gsmd, seqno, e.result, e.later, timeout);
        if reset {
          return;
        }
      } else if gsmd.active == 0 {
        gsmd.active := 1;
        timeout := e.later + gsmd.timeouts.failback;
      } else {
        gsmd.active := 0;
        return;
      }
    }
  }

  /** The thread, as far as the given events take it. */
  method FailoverThread(gsmd: Gsmd, events: seq<Event>, ghost x: Execution)
    requires IsExecution(gsmd.timeouts, x) && events == x.events && gsmd.active == 0
    modifies gsmd`active
    ensures gsmd.active == if gsmd.n == 1 then 0 else x.machines[|events|].active
  {
    if gsmd.n == 1 {
      return;
    }
    var i := 0;
    while i < |events|
      invariant 0 <= i <= |events| && gsmd.active == x.machines[i].active <= 1
      invariant i < |events| ==> x.machines[i].phase == Sleeping
    {
      var e := events[i];
      assert Enabled(x.machines[i], e) && x.machines[i + 1] == Step(gsmd.timeouts, x.machines[i], e);
      var timeout := e.now + gsmd.timeouts.failover;
      i := Poll(gsmd, events, i + 1, e.seqno, timeout, x);
    }
  }
}
