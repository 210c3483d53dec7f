/** Whole runs of authentication attempts by one HOTP user: what no sequence of calls to
    verify, with any clock, any passcodes and any failures of the state store, can do. */
module VerifyRuns {
  import opened Bytes
  import opened TokenState
  import opened HotpCard
  import opened Verify
  import Counter = HotpCounter
  import HexText

  /** states[i] is what the store holds before attempt i. */
  datatype Run = Run(states: seq<Option<Record>>, attempts: seq<Attempt>, outcomes: seq<Outcome>)

  /** Each attempt is one call to verify on what the previous one left in the store. */
  ghost predicate IsRun(u: User, t: Run) {
    && |t.states| == |t.attempts| + 1 && |t.outcomes| == |t.attempts|
    && (forall i | 0 <= i < |t.states| :: WellFormed(t.states[i]))
    && (forall i | 0 <= i < |t.outcomes| ::
          t.outcomes[i] == Decide(u, t.states[i], t.attempts[i]) && t.states[i + 1] == t.outcomes[i].stored)
  }

  function StateAfter(u: User, s: Option<Record>, attempts: seq<Attempt>, n: nat): (r: Option<Record>)
    requires WellFormed(s) && n <= |attempts|
    ensures WellFormed(r)
  {
    if n == 0 then s else Decide(u, StateAfter(u, s, attempts, n - 1), attempts[n - 1]).stored
  }

  /** The run of a list of attempts from a given state. */
  function RunFrom(u: User, s: Option<Record>, attempts: seq<Attempt>): Run
    requires WellFormed(s)
  {
    Run(seq(|attempts| + 1, i requires 0 <= i <= |attempts| => StateAfter(u, s, attempts, i)),
        attempts,
        seq(|attempts|, i requires 0 <= i < |attempts| => Decide(u, StateAfter(u, s, attempts, i), attempts[i])))
  }

  /** Every list of attempts has a run ... */
  lemma RunFromIsRun(u: User, s: Option<Record>, attempts: seq<Attempt>)
    requires WellFormed(s)
    ensures IsRun(u, RunFrom(u, s, attempts))
  {
    var t := RunFrom(u, s, attempts);
    forall i | 0 <= i < |t.outcomes|
      ensures t.outcomes[i] == Decide(u, t.states[i], t.attempts[i]) && t.states[i + 1] == t.outcomes[i].stored
    {
      RunFromAt(u, s, attempts, i);
    }
  }

  lemma RunFromAt(u: User, s: Option<Record>, attempts: seq<Attempt>, i: nat)
    requires WellFormed(s) && i < |attempts|
    ensures var t := RunFrom(u, s, attempts); WellFormed(t.states[i])
    ensures var t := RunFrom(u, s, attempts);
      t.outcomes[i] == Decide(u, t.states[i], attempts[i]) && t.states[i + 1] == t.outcomes[i].stored
  {
  }

  /** ... and only one. */
  lemma RunIsUnique(u: User, t: Run)
    requires IsRun(u, t)
    ensures t == RunFrom(u, t.states[0], t.attempts)
  {
    var r := RunFrom(u, t.states[0], t.attempts);
    forall i | 0 <= i < |t.states| ensures t.states[i] == r.states[i] {
      SameStates(u, t, i);
    }
    forall i | 0 <= i < |t.outcomes| ensures t.outcomes[i] == r.outcomes[i] {
      SameStates(u, t, i);
    }
    assert t.states == r.states && t.outcomes == r.outcomes;
  }

  lemma {:induction false} SameStates(u: User, t: Run, i: nat)
    requires IsRun(u, t) && i <= |t.attempts|
    ensures t.states[i] == StateAfter(u, t.states[0], t.attempts, i)
  {
    if i > 0 {
      SameStates(u, t, i - 1);
      assert t.states[i] == t.outcomes[i - 1].stored;
    }
  }

  function Base(s: Option<Record>): uint64
    requires WellFormed(s) && s.Some?
  {
    Value(s.value.challenge)
  }

  // ---- the laws of one call -----------------------------------------------

  /** An attempt that stores nothing changes nothing and is refused. */
  ghost predicate LostLaw(s: Option<Record>, o: Outcome) {
    && (!o.kept ==> o.stored == s && o.rc in {AUTH_ERR, SERVICE_ERR})
    && (o.kept ==> o.rc == o.verdict || o.rc == SERVICE_ERR)
    && (o.kept ==> s.Some?)
    && (o.stored.Some? <==> s.Some?)
  }

  /** A success moves the stored challenge to the counter it accepted and clears the rest. */
  ghost predicate SuccessLaw(u: User, s: Option<Record>, a: Attempt, o: Outcome)
    requires WellFormed(s) && WellFormed(o.stored)
  {
    Took(o) ==>
      && s.Some? && o.stored.Some? && o.hit.Some?
      && Base(o.stored) == Counter.At(Base(s), o.hit.value)
      && o.stored.value.rd == "" && o.stored.value.failcount == 0
      && o.stored.value.authtime == ToU32(a.env.now)
  }

  /** A counted failure leaves the challenge, counts up, and records a match in rd. */
  ghost predicate FailureLaw(s: Option<Record>, a: Attempt, o: Outcome) {
    o.kept && o.verdict != OK ==>
      && s.Some? && o.stored.Some?
      && o.stored.value.challenge == s.value.challenge
      && o.stored.value.failcount == CountFailure(s.value.failcount)
      && o.stored.value.rd == (if o.hit.Some? then HexText.Print(o.hit.value) else s.value.rd)
      && (s.value.authtime < TWO31 ==> o.stored.value.authtime == ToU32(a.env.now))
  }

  /** The match, and the failure condition, are those of the stored state. */
  ghost predicate JudgeLaw(u: User, s: Option<Record>, a: Attempt, o: Outcome) {
    && (o.hit.Some? ==> o.hit.value <= LastPosition(a.config, u) < TWO31)
    && (o.kept && s.Some? ==> o.fc == FailCondition(a.config, Awaken(s.value), s.value.authtime >= TWO31, a.env))
    && (Took(o) && o.hit.Some? && s.Some? && (o.fc == SOFT || o.hit.value > ToI32(a.config.ewindow)) ==>
          IsConsecutive(s.value.rd, o.hit.value) && ToU32(a.env.now) > Awaken(s.value).authtime)
  }

  ghost predicate Law(u: User, s: Option<Record>, a: Attempt, o: Outcome) {
    && WellFormed(s) && WellFormed(o.stored)
    && LostLaw(s, o) && SuccessLaw(u, s, a, o) && FailureLaw(s, a, o) && JudgeLaw(u, s, a, o)
  }

  lemma DecideMayLose(u: User, s: Option<Record>, a: Attempt)
    requires WellFormed(s)
    ensures LostLaw(s, Decide(u, s, a))
  {
  }

  lemma DecideSucceeds(u: User, s: Option<Record>, a: Attempt)
    requires WellFormed(s)
    ensures SuccessLaw(u, s, a, Decide(u, s, a))
  {
  }

  lemma DecideFails(u: User, s: Option<Record>, a: Attempt)
    requires WellFormed(s)
    ensures FailureLaw(s, a, Decide(u, s, a))
  {
  }

  lemma DecideJudges(u: User, s: Option<Record>, a: Attempt)
    requires WellFormed(s)
    ensures JudgeLaw(u, s, a, Decide(u, s, a))
  {
    var o := Decide(u, s, a);
    if o.hit.Some? {
      FirstMatchIsFirst(a.config, u, a.request.passcode, Base(s), 0, LastPosition(a.config, u), o.hit.value);
    }
  }

  lemma DecideIsLawful(u: User, s: Option<Record>, a: Attempt)
    requires WellFormed(s)
    ensures Law(u, s, a, Decide(u, s, a))
  {
    DecideMayLose(u, s, a);
    DecideSucceeds(u, s, a);
    DecideFails(u, s, a);
    DecideJudges(u, s, a);
  }

  ghost predicate Lawful(u: User, t: Run) {
    && |t.states| == |t.attempts| + 1 && |t.outcomes| == |t.attempts|
    && forall i {:trigger t.outcomes[i]} | 0 <= i < |t.outcomes| ::
         Law(u, t.states[i], t.attempts[i], t.outcomes[i]) && t.states[i + 1] == t.outcomes[i].stored
  }

  lemma RunIsLawful(u: User, t: Run)
    requires IsRun(u, t)
    ensures Lawful(u, t)
  {
    forall i | 0 <= i < |t.outcomes| ensures Law(u, t.states[i], t.attempts[i], t.outcomes[i]) {
      DecideIsLawful(u, t.states[i], t.attempts[i]);
    }
  }

  // ---- no counter is accepted twice ---------------------------------------

  /** The counter whose passcode attempt i was accepted for. */
  function Accepted(t: Run, i: nat): uint64
    requires i < |t.outcomes| && |t.states| == |t.outcomes| + 1
    requires WellFormed(t.states[i]) && t.states[i].Some? && t.outcomes[i].hit.Some?
  {
    Counter.At(Base(t.states[i]), t.outcomes[i].hit.value)
  }

  /** Attempt i succeeded and its success was stored; a lost acknowledgement can still have made
      the answer a service error. */
  ghost predicate SuccessAt(t: Run, i: nat) {
    && i < |t.outcomes| && |t.states| == |t.outcomes| + 1 && Took(t.outcomes[i])
    && t.states[i].Some? && WellFormed(t.states[i]) && t.outcomes[i].hit.Some?
  }

  ghost predicate Unwrapped(t: Run, i: nat)
    requires SuccessAt(t, i)
  {
    Counter.Lo(Base(t.states[i])) + t.outcomes[i].hit.value + 1 < TWO32
  }

  lemma OkIsSuccessAt(u: User, t: Run, i: nat)
    requires Lawful(u, t) && i < |t.outcomes| && t.outcomes[i].rc == OK
    ensures SuccessAt(t, i)
  {
  }

  lemma SuccessRaisesBase(u: User, t: Run, i: nat)
    requires Lawful(u, t) && SuccessAt(t, i) && Unwrapped(t, i)
    ensures t.states[i + 1].Some? && WellFormed(t.states[i + 1])
    ensures Base(t.states[i]) < Accepted(t, i) == Base(t.states[i + 1])
  {
    Counter.AheadGoesUp(Base(t.states[i]), t.outcomes[i].hit.value + 1);
  }

  lemma {:induction false} BaseNeverFalls(u: User, t: Run, i: nat, j: nat)
    requires Lawful(u, t) && i <= j < |t.states| && t.states[i].Some? && WellFormed(t.states[i])
    requires forall k | i <= k < j && SuccessAt(t, k) :: Unwrapped(t, k)
    ensures t.states[j].Some? && WellFormed(t.states[j])
    ensures Base(t.states[i]) <= Base(t.states[j])
    decreases j
  {
    if i < j {
      BaseNeverFalls(u, t, i, j - 1);
      var o := t.outcomes[j - 1];
      if Took(o) {
        SuccessRaisesBase(u, t, j - 1);
      }
    }
  }

  /** After a success at i, the stored counter is the one accepted last. */
  lemma {:induction false} LatestSuccess(u: User, t: Run, i: nat, j: nat) returns (m: nat)
    requires Lawful(u, t) && i < j < |t.states| && SuccessAt(t, i)
    ensures i <= m < j && SuccessAt(t, m) && t.states[j].Some? && WellFormed(t.states[j])
    ensures Base(t.states[j]) == Accepted(t, m)
    decreases j
  {
    if SuccessAt(t, j - 1) {
      m := j - 1;
    } else {
      m := LatestSuccess(u, t, i, j - 1);
      assert Law(u, t.states[j - 1], t.attempts[j - 1], t.outcomes[j - 1]);
    }
  }

  /** Replay protection: a success after one at i is for a higher counter, whatever updates the
      state store loses and whatever acknowledgements are lost, as long as no window since then
      wraps around. */
  lemma AcceptedCountersIncrease(u: User, t: Run, i: nat, j: nat)
    requires IsRun(u, t) && i < j && SuccessAt(t, i) && SuccessAt(t, j)
    requires forall k | i < k <= j && SuccessAt(t, k) :: Unwrapped(t, k)
    ensures Accepted(t, i) < Accepted(t, j)
  {
    RunIsLawful(u, t);
    assert Law(u, t.states[i], t.attempts[i], t.outcomes[i]);
    BaseNeverFalls(u, t, i + 1, j);
    SuccessRaisesBase(u, t, j);
  }

  ghost predicate Increasing(t: Run) {
    forall i: nat, j: nat | i < j && SuccessAt(t, i) && SuccessAt(t, j) :: Accepted(t, i) < Accepted(t, j)
  }

  /** No window but that of the first success wraps around. */
  ghost predicate LaterUnwrapped(t: Run) {
    forall i: nat, j: nat | i < j && SuccessAt(t, i) && SuccessAt(t, j) :: Unwrapped(t, j)
  }

  /** Replay protection, exactly: over a whole run the accepted counters strictly increase if and
      only if no success after the first one wraps around. */
  lemma IncreasingExactly(u: User, t: Run)
    requires IsRun(u, t)
    ensures Increasing(t) <==> LaterUnwrapped(t)
  {
    RunIsLawful(u, t);
    if Increasing(t) {
      forall i: nat, j: nat | i < j && SuccessAt(t, i) && SuccessAt(t, j) ensures Unwrapped(t, j) {
        var m := LatestSuccess(u, t, i, j);
        assert Accepted(t, m) < Accepted(t, j);
        AcceptedAboveBaseExactly(u, t, j);
      }
    }
    if LaterUnwrapped(t) {
      forall i: nat, j: nat | i < j && SuccessAt(t, i) && SuccessAt(t, j) ensures Accepted(t, i) < Accepted(t, j) {
        AcceptedCountersIncrease(u, t, i, j);
      }
    }
  }

  /** The guard is exact: an accepted counter lies above the stored one if and only if the
      window did not wrap before it; a wrapped one lies below. */
  lemma AcceptedAboveBaseExactly(u: User, t: Run, i: nat)
    requires IsRun(u, t) && SuccessAt(t, i)
    ensures Accepted(t, i) > Base(t.states[i]) <==> Unwrapped(t, i)
    ensures !Unwrapped(t, i) ==> Accepted(t, i) < Base(t.states[i])
  {
    RunIsLawful(u, t);
    PositionAboveBaseExactly(Base(t.states[i]), t.outcomes[i].hit.value);
  }

  lemma PositionAboveBaseExactly(base: uint64, e: nat)
    requires e < TWO31
    ensures if Counter.Lo(base) + e + 1 < TWO32 then Counter.At(base, e) > base else Counter.At(base, e) < base
  {
    if Counter.Lo(base) + e + 1 < TWO32 {
      Counter.AheadGoesUp(base, e + 1);
    } else {
      Counter.AheadWraps(base, e + 1);
    }
  }

  /** Where an accepted counter lies: in the window that starts one past the stored one. */
  lemma AcceptedInWindow(u: User, t: Run, i: nat)
    requires IsRun(u, t) && SuccessAt(t, i)
    ensures 0 <= LastPosition(t.attempts[i].config, u)
    ensures var eend, base := LastPosition(t.attempts[i].config, u), Base(t.states[i]);
      Counter.PlainWindow(base, eend) ==>
        Accepted(t, i) == base + 1 + t.outcomes[i].hit.value && base + 1 <= Accepted(t, i) <= base + 1 + eend
  {
    RunIsLawful(u, t);
    var eend := LastPosition(t.attempts[i].config, u);
    Counter.WindowIsPlus(Base(t.states[i]), eend);
  }

  // ---- the resync history -------------------------------------------------

  /** The window position of the latest recorded match since the last success: what a history
      of the first n outcomes says, without looking at the stored text. */
  function Candidate(t: Run, n: nat): Option<nat>
    requires n <= |t.outcomes|
  {
    if n == 0 then None
    else
      var o := t.outcomes[n - 1];
      if !o.kept then Candidate(t, n - 1)
      else if o.verdict == OK then None
      else if o.hit.Some? then o.hit
      else Candidate(t, n - 1)
  }

  function CandidateText(c: Option<nat>): string {
    if c.None? then "" else HexText.Print(c.value)
  }

  /** In every reachable state rd is exactly the text of the candidate. */
  lemma {:induction false} RdHoldsCandidate(u: User, t: Run, n: nat)
    requires Lawful(u, t) && n <= |t.outcomes| && t.states[0].Some? && t.states[0].value.rd == ""
    ensures t.states[n].Some?
    ensures t.states[n].value.rd == CandidateText(Candidate(t, n))
  {
    if n > 0 {
      RdHoldsCandidate(u, t, n - 1);
      var o := t.outcomes[n - 1];
      assert Law(u, t.states[n - 1], t.attempts[n - 1], o);
    }
  }

  /** Attempts i to j - 1 recorded no match and had no success. */
  ghost predicate QuietSince(t: Run, i: nat, j: nat)
    requires j <= |t.outcomes|
  {
    forall k | i <= k < j && t.outcomes[k].kept :: t.outcomes[k].verdict != OK && t.outcomes[k].hit.None?
  }

  /** The attempt that recorded the current candidate. Nothing was accepted or recorded since,
      so the stored challenge is still the one it matched against. */
  lemma {:induction false} CandidateWasRecorded(u: User, t: Run, n: nat) returns (m: nat)
    requires Lawful(u, t) && n <= |t.outcomes| && t.states[0].Some? && Candidate(t, n).Some?
    ensures m < n && QuietSince(t, m + 1, n)
    ensures var o := t.outcomes[m]; o.kept && o.verdict != OK && o.hit == Candidate(t, n)
    ensures t.states[m].Some? && t.states[n].Some?
    ensures t.states[m].value.challenge == t.states[n].value.challenge
  {
    var o := t.outcomes[n - 1];
    assert Law(u, t.states[n - 1], t.attempts[n - 1], o);
    if o.kept && o.hit.Some? {
      m := n - 1;
    } else {
      m := CandidateWasRecorded(u, t, n - 1);
    }
  }

  /** The time of the last attempt whose update was stored, among the first n. */
  function LastRecorded(t: Run, n: nat): Option<nat>
    requires n <= |t.outcomes| && |t.attempts| == |t.outcomes|
  {
    if n == 0 then None
    else if t.outcomes[n - 1].kept then Some(t.attempts[n - 1].env.now)
    else LastRecorded(t, n - 1)
  }

  /** The clock stays in the range of a positive int32_t. */
  ghost predicate ClockInRange(t: Run) {
    forall i | 0 <= i < |t.attempts| :: t.attempts[i].env.now + 2048 < TWO31
  }

  lemma {:induction false} AuthtimeIsLastRecorded(u: User, t: Run, n: nat)
    requires Lawful(u, t) && n <= |t.outcomes| && t.states[0].Some? && ClockInRange(t)
    requires t.states[0].value.authtime < TWO31
    ensures t.states[n].Some? && t.states[n].value.authtime < TWO31
    ensures LastRecorded(t, n).Some? ==> t.states[n].value.authtime == LastRecorded(t, n).value
  {
    if n > 0 {
      AuthtimeIsLastRecorded(u, t, n - 1);
      var o := t.outcomes[n - 1];
      assert Law(u, t.states[n - 1], t.attempts[n - 1], o);
    }
  }

  /** Two consecutive passcodes: a success in delay mode or beyond the event window, at
      position e, was preceded by a recorded match at e - 1 against the same stored challenge,
      with nothing accepted or recorded in between, and comes in a strictly later second than
      the last recorded attempt. */
  lemma ResyncNeedsTwoConsecutive(u: User, t: Run, n: nat) returns (m: nat)
    requires IsRun(u, t) && t.states[0].Some? && t.states[0].value.rd == "" && t.states[0].value.authtime < TWO31
    requires ClockInRange(t) && SuccessAt(t, n)
    requires t.outcomes[n].fc == SOFT || t.outcomes[n].hit.value > ToI32(t.attempts[n].config.ewindow)
    ensures m < n && QuietSince(t, m + 1, n)
    ensures t.outcomes[m].kept && t.outcomes[m].verdict != OK && t.states[m].Some?
    ensures t.outcomes[m].hit.Some? && t.outcomes[m].hit.value + 1 == t.outcomes[n].hit.value
    ensures t.states[m].value.challenge == t.states[n].value.challenge
    ensures LastRecorded(t, n).Some? && t.attempts[n].env.now > LastRecorded(t, n).value
  {
    RunIsLawful(u, t);
    SuccessFollowsCandidate(u, t, n);
    m := CandidateWasRecorded(u, t, n);
    AuthtimeIsLastRecorded(u, t, n);
    RecordedByThen(t, m, n);
  }

  lemma SuccessFollowsCandidate(u: User, t: Run, n: nat)
    requires Lawful(u, t) && t.states[0].Some? && t.states[0].value.rd == "" && ClockInRange(t) && SuccessAt(t, n)
    requires t.outcomes[n].fc == SOFT || t.outcomes[n].hit.value > ToI32(t.attempts[n].config.ewindow)
    ensures var c := Candidate(t, n); c.Some? && c.value + 1 == t.outcomes[n].hit.value
    ensures t.attempts[n].env.now > Awaken(t.states[n].value).authtime
  {
    ResyncIsConsecutive(u, t, n);
    RdHoldsCandidate(u, t, n);
    var c := Candidate(t, n);
    if c.Some? {
      CandidateInRange(u, t, n);
    }
    ConsecutiveToCandidate(c, t.outcomes[n].hit.value);
  }

  lemma ResyncIsConsecutive(u: User, t: Run, n: nat)
    requires Lawful(u, t) && ClockInRange(t) && SuccessAt(t, n)
    requires t.outcomes[n].fc == SOFT || t.outcomes[n].hit.value > ToI32(t.attempts[n].config.ewindow)
    ensures IsConsecutive(t.states[n].value.rd, t.outcomes[n].hit.value)
    ensures t.attempts[n].env.now > Awaken(t.states[n].value).authtime
  {
    assert JudgeLaw(u, t.states[n], t.attempts[n], t.outcomes[n]);
  }

  lemma ConsecutiveToCandidate(c: Option<nat>, position: nat)
    requires c.Some? ==> c.value < TWO31
    ensures IsConsecutive(CandidateText(c), position) <==> c.Some? && c.value + 1 == position
  {
    if c.Some? {
      ConsecutiveAfter(c.value, position);
    }
  }

  lemma {:induction false} CandidateInRange(u: User, t: Run, n: nat)
    requires Lawful(u, t) && n <= |t.outcomes| && Candidate(t, n).Some?
    ensures Candidate(t, n).value < TWO31
  {
    var o := t.outcomes[n - 1];
    assert Law(u, t.states[n - 1], t.attempts[n - 1], o);
    if !(o.kept && o.hit.Some?) {
      CandidateInRange(u, t, n - 1);
    }
  }

  lemma {:induction false} RecordedByThen(t: Run, m: nat, n: nat)
    requires m < n <= |t.outcomes| && |t.attempts| == |t.outcomes| && t.outcomes[m].kept
    ensures LastRecorded(t, n).Some?
    decreases n
  {
    if m < n - 1 {
      RecordedByThen(t, m, n - 1);
    }
  }
}
