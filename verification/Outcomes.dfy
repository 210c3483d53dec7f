/** Exactly which calls to verify succeed, which are counted as failures, and what the stored
    count is after a run. */
module Outcomes {
  import opened Bytes
  import opened TokenState
  import opened HotpCard
  import opened Verify
  import opened VerifyRuns
  import Counter = HotpCounter
  import HexText

  // ---- which calls count --------------------------------------------------

  /** A call that updates the state: the passcode has the right length, the state is there and
      was got in time, it is put back, and the card can compute responses if they are tried. A
      passcode of the wrong length ends the call before the state is read. */
  predicate Counts(u: User, s: Option<Record>, a: Attempt) {
    && |a.request.passcode| == u.digits + |u.pin|
    && a.env.getOk && s.Some? && a.env.inTime && !a.env.put.Failed?
    && (!a.request.allowSync || LastPosition(a.config, u) < 0 || 6 <= u.digits <= 9)
  }

  /** Exactly these calls leave a trace in the store; all others leave it as it was. */
  lemma CountsExactly(u: User, s: Option<Record>, a: Attempt)
    requires WellFormed(s)
    ensures Decide(u, s, a).kept <==> Counts(u, s, a)
    ensures !Counts(u, s, a) ==> Decide(u, s, a).stored == s && Decide(u, s, a).rc in {AUTH_ERR, SERVICE_ERR}
  {
    DecideIsLawful(u, s, a);
  }

  // ---- which calls succeed ------------------------------------------------

  predicate HardFailed(config: Config, r: Record) {
    config.hardfail != 0 && r.failcount >= config.hardfail
  }

  /** Seconds to wait with so many failures beyond softfail. From 2^31 on their number is negative
      as an int, and C leaves the shift undefined. */
  function Wait(over: uint32, shifted: uint32): nat {
    if over >= 0x8000_0000 then shifted else if over > 5 then 2048 else [64, 128, 256, 512, 1024, 2048][over]
  }

  /** Delay mode: for a null state always, else until the delay after the last attempt is over. */
  predicate Delayed(config: Config, s: Record, env: Env) {
    config.softfail != 0 &&
    (s.authtime >= 0x8000_0000 ||
     (s.failcount >= config.softfail &&
      ToU32(env.now) < ToU32(s.authtime + Wait(s.failcount - config.softfail, env.shifted))))
  }

  /** The passcode of window position e: the HOTP value, with the PIN before or after it. */
  predicate IsPasscodeOf(u: User, base: uint64, a: Attempt, e: nat) {
    var hotp := u.hotp(Counter.At(base, e));
    a.request.passcode == if a.config.prependPin then u.pin + hotp else hotp + u.pin
  }

  /** The passcode is that of position e, and of none before. The window is the user's own, or
      else the configured one, or else the event window. */
  ghost predicate FirstMatches(u: User, s: Record, a: Attempt, e: nat)
    requires |s.challenge| == CHALLENGE_LEN
  {
    && e <= ToI32(if u.rwindow != 0 then u.rwindow else if a.config.rwindow != 0 then a.config.rwindow else a.config.ewindow)
    && IsPasscodeOf(u, Value(s.challenge), a, e)
    && forall q: nat | q < e :: !IsPasscodeOf(u, Value(s.challenge), a, q)
  }

  /** A match at e is let in: after a match at e - 1 in an earlier second, or within the event
      window outside delay mode. */
  predicate LetIn(s: Record, a: Attempt, e: nat) {
    if IsConsecutive(s.rd, e) then ToU32(a.env.now) > Awaken(s).authtime
    else !Delayed(a.config, s, a.env) && e <= ToI32(a.config.ewindow)
  }

  /** A call succeeds if and only if it counts, hard fail is not reached, and the passcode first
      matches at a position of the window that is let in. */
  lemma SuccessExactly(u: User, s: Option<Record>, a: Attempt)
    requires WellFormed(s)
    ensures Decide(u, s, a).rc == OK <==> Took(Decide(u, s, a)) && a.env.put.Done?
    ensures Took(Decide(u, s, a)) <==>
      Counts(u, s, a) && a.request.allowSync && !HardFailed(a.config, s.value) &&
      exists e: nat :: FirstMatches(u, s.value, a, e) && LetIn(s.value, a, e)
  {
    if s.Some? && Counts(u, s, a) && a.request.allowSync {
      MatchIsFirst(u, s.value, a);
      HitDecides(u, s, a);
    }
  }

  lemma MatchIsFirst(u: User, s: Record, a: Attempt)
    requires |s.challenge| == CHALLENGE_LEN
    ensures forall e: nat :: FirstMatches(u, s, a, e) <==>
      FirstMatch(a.config, u, a.request.passcode, Value(s.challenge), 0, LastPosition(a.config, u)) == Some(e)
  {
    var base := Value(s.challenge);
    forall e: nat ensures IsPasscodeOf(u, base, a, e) <==> Matches(a.config, u, a.request.passcode, base, e) {
    }
    forall e: nat
      ensures FirstMatches(u, s, a, e) <==>
        FirstMatch(a.config, u, a.request.passcode, base, 0, LastPosition(a.config, u)) == Some(e)
    {
      FirstMatchIsFirst(a.config, u, a.request.passcode, base, 0, LastPosition(a.config, u), e);
    }
  }

  /** Delay mode is what the failure condition comes to. */
  lemma FailsExactly(config: Config, s: Record, env: Env)
    ensures var fc := FailCondition(config, Awaken(s), s.authtime >= TWO31, env);
      && (fc == HARD <==> HardFailed(config, s))
      && (fc == SOFT <==> !HardFailed(config, s) && Delayed(config, s, env))
  {
    if s.failcount >= config.softfail {
      WaitIsDelay(s.failcount - config.softfail, env.shifted);
    }
  }

  lemma WaitIsDelay(over: uint32, shifted: uint32)
    ensures Wait(over, shifted) == Delay(ToI32(over), shifted)
  {
    assert Pow2(0) == 1 && Pow2(1) == 2 && Pow2(2) == 4 && Pow2(3) == 8;
    assert Pow2(4) == 2 * Pow2(3) && Pow2(5) == 2 * Pow2(4);
  }

  /** The verdict on a call that counts. */
  lemma HitDecides(u: User, s: Option<Record>, a: Attempt)
    requires WellFormed(s) && Counts(u, s, a) && a.request.allowSync
    ensures var hit := FirstMatch(a.config, u, a.request.passcode, Value(s.value.challenge), 0, LastPosition(a.config, u));
      Decide(u, s, a).verdict ==
        if hit.None? then AUTH_ERR
        else if HardFailed(a.config, s.value) then MAXTRIES
        else if LetIn(s.value, a, hit.value) then OK
        else NEXTPASSCODE
  {
    FailsExactly(a.config, s.value, a.env);
  }

  // ---- what each answer means ---------------------------------------------

  /** A right passcode that is not let in is answered by "too many tries" in hard fail and by
      "next passcode" otherwise; a wrong one is an error of the user; a call that does not come to
      a verdict, or cannot be sure that it is stored, is an error of the service. */
  lemma AnswerExactly(u: User, s: Option<Record>, a: Attempt)
    requires WellFormed(s)
    ensures var rc, measured := Decide(u, s, a).rc, |a.request.passcode| == u.digits + |u.pin|;
      var stored := Counts(u, s, a) && a.env.put.Done?;
      var matches := stored && a.request.allowSync && exists e: nat :: FirstMatches(u, s.value, a, e);
      && (rc == MAXTRIES <==> matches && HardFailed(a.config, s.value))
      && (rc == NEXTPASSCODE <==> matches && !HardFailed(a.config, s.value) && NoneLetIn(u, s.value, a))
      && (rc == AUTH_ERR <==> !measured || (stored && !matches))
      && (rc == SERVICE_ERR <==> measured && !stored)
  {
    if s.Some? && Counts(u, s, a) && a.request.allowSync {
      MatchIsFirst(u, s.value, a);
      HitDecides(u, s, a);
    }
  }

  ghost predicate NoneLetIn(u: User, s: Record, a: Attempt)
    requires |s.challenge| == CHALLENGE_LEN
  {
    forall e: nat | FirstMatches(u, s, a, e) :: !LetIn(s, a, e)
  }

  /** What was accepted: the passcode of the counter that the store now holds. */
  lemma AcceptedPasscode(u: User, s: Option<Record>, a: Attempt)
    requires WellFormed(s) && Took(Decide(u, s, a))
    ensures var hotp := u.hotp(Base(Decide(u, s, a).stored));
      a.request.passcode == if a.config.prependPin then u.pin + hotp else hotp + u.pin
  {
    DecideIsLawful(u, s, a);
    MatchIsFirst(u, s.value, a);
  }

  // ---- what each call stores ----------------------------------------------

  /** A success moves the challenge to the counter that matched, forgets the candidate and the
      failures, and notes the time. */
  function AfterSuccess(s: Record, e: nat, now: nat): Record
    requires |s.challenge| == CHALLENGE_LEN
  {
    s.(challenge := Challenge(Counter.At(Value(s.challenge), e)), rd := "", failcount := 0, authtime := ToU32(now))
  }

  /** A failure counts up to 2^32 - 2, notes the time, as a negative number if it was one, and the
      position of a match. */
  function AfterFailure(s: Record, rd: string, now: nat): Record {
    s.(rd := rd,
       failcount := if s.failcount == 0xffff_ffff then 0 else if s.failcount == 0xffff_fffe then s.failcount else s.failcount + 1,
       authtime := if s.authtime >= 0x8000_0000 then ToU32(TWO32 - ToU32(now)) else ToU32(now))
  }

  /** The stored record after any call. */
  lemma StoredExactly(u: User, s: Option<Record>, a: Attempt)
    requires WellFormed(s)
    ensures var o := Decide(u, s, a);
      if !Counts(u, s, a) then o.stored == s
      else if a.request.allowSync && exists e: nat :: FirstMatches(u, s.value, a, e) then
        forall e: nat | FirstMatches(u, s.value, a, e) ::
          o.stored == Some(if Took(o) then AfterSuccess(s.value, e, a.env.now) else AfterFailure(s.value, HexText.Print(e), a.env.now))
      else o.stored == Some(AfterFailure(s.value, s.value.rd, a.env.now))
  {
    if Counts(u, s, a) {
      var hit := FirstMatch(a.config, u, a.request.passcode, Value(s.value.challenge), 0, LastPosition(a.config, u));
      MatchIsFirst(u, s.value, a);
      UpdatesAre(s.value, None, 0, a.env.now);
      if a.request.allowSync {
        HitStores(u, s, a);
        if hit.Some? {
          UpdatesAre(s.value, hit, hit.value, a.env.now);
        }
      }
    }
  }

  lemma CountsUp(n: uint32)
    ensures CountFailure(n) == if n == 0xffff_ffff then 0 else if n == 0xffff_fffe then n else n + 1
  {
  }

  lemma HitStores(u: User, s: Option<Record>, a: Attempt)
    requires WellFormed(s) && Counts(u, s, a) && a.request.allowSync
    ensures var o, r := Decide(u, s, a), s.value;
      var hit := FirstMatch(a.config, u, a.request.passcode, Value(r.challenge), 0, LastPosition(a.config, u));
      if hit.None? then !Took(o) && o.stored == Some(Failure(Awaken(r), r.authtime >= TWO31, None, a.env.now))
      else if Took(o) then o.stored == Some(Success(Awaken(r), Value(r.challenge), hit.value, a.env.now))
      else o.stored == Some(Failure(Awaken(r), r.authtime >= TWO31, hit, a.env.now))
  {
  }

  lemma UpdatesAre(r: Record, hit: Option<nat>, e: nat, now: nat)
    requires |r.challenge| == CHALLENGE_LEN
    ensures Success(Awaken(r), Value(r.challenge), e, now) == AfterSuccess(r, e, now)
    ensures Failure(Awaken(r), r.authtime >= TWO31, hit, now) ==
      AfterFailure(r, if hit.Some? then HexText.Print(hit.value) else r.rd, now)
  {
    CountsUp(r.failcount);
  }

  // ---- a state that never succeeded ---------------------------------------

  predicate Marked(s: Option<Record>) {
    s.Some? && s.value.authtime >= 0x8000_0000
  }

  /** A negative time marks a state that has never succeeded. It keeps the mark until a success. */
  lemma {:induction false} MarkedUntilSuccess(u: User, t: Run, n: nat)
    requires IsRun(u, t) && n <= |t.outcomes| && Marked(t.states[0])
    requires forall i | 0 <= i < |t.attempts| :: 0 < t.attempts[i].env.now < 0x8000_0000
    requires forall i | 0 <= i < n :: !Took(t.outcomes[i])
    ensures Marked(t.states[n])
    ensures LastRecorded(t, n).Some? ==> t.states[n].value.authtime == 0x1_0000_0000 - LastRecorded(t, n).value
  {
    if n > 0 {
      MarkedUntilSuccess(u, t, n - 1);
      MarkStays(u, t.states[n - 1], t.attempts[n - 1]);
      assert t.states[n] == t.outcomes[n - 1].stored;
    }
  }

  lemma MarkStays(u: User, s: Option<Record>, a: Attempt)
    requires WellFormed(s) && Marked(s) && 0 < a.env.now < TWO31 && !Took(Decide(u, s, a))
    ensures var o := Decide(u, s, a);
      o.stored.Some? && o.stored.value.authtime == if o.kept then TWO32 - a.env.now else s.value.authtime
  {
  }

  /** With soft fail on, a marked state is in delay mode: its first success is for a second
      consecutive passcode. */
  lemma FirstSuccessIsConsecutive(u: User, s: Option<Record>, a: Attempt)
    requires WellFormed(s) && Marked(s) && a.config.softfail != 0 && Took(Decide(u, s, a))
    ensures exists e: nat :: FirstMatches(u, s.value, a, e) && IsConsecutive(s.value.rd, e)
  {
    SuccessExactly(u, s, a);
    var e: nat :| FirstMatches(u, s.value, a, e) && LetIn(s.value, a, e);
    assert Delayed(a.config, s.value, a.env);
  }

  // ---- the range of the clock ---------------------------------------------

  /** Right after a success there is no delay exactly while the clock has bit 31 clear. From 2^31
      on the time of the success reads like that of a null state: the next call finds delay mode,
      and whatever the passcode it does not succeed. */
  lemma LateClockExactly(u: User, s: Option<Record>, a: Attempt, next: Attempt)
    requires WellFormed(s) && Took(Decide(u, s, a)) && next.config.softfail != 0
    ensures var r := Decide(u, s, a).stored.value;
      FailCondition(next.config, Awaken(r), r.authtime >= TWO31, next.env) ==
        if ToU32(a.env.now) >= TWO31 then SOFT else NONE
    ensures ToU32(a.env.now) >= TWO31 ==> !Took(Decide(u, Decide(u, s, a).stored, next))
  {
    DecideIsLawful(u, s, a);
    SuccessExactly(u, Decide(u, s, a).stored, next);
  }

  // ---- the count over runs ------------------------------------------------

  /** The calls that counted and failed, after the last success or, before one, on top of the
      count the run started with. */
  function FailuresSince(u: User, t: Run, n: nat): nat
    requires n <= |t.outcomes| == |t.attempts| < |t.states| && t.states[0].Some?
  {
    if n == 0 then t.states[0].value.failcount
    else if Took(t.outcomes[n - 1]) then 0
    else FailuresSince(u, t, n - 1) + if Counts(u, t.states[n - 1], t.attempts[n - 1]) then 1 else 0
  }

  /** The count stops at its last value but one. */
  const MOST: uint32 := 0xffff_fffe

  /** What one call does to the count. */
  lemma CountAfter(u: User, s: Option<Record>, a: Attempt, o: Outcome)
    requires WellFormed(s) && s.Some? && s.value.failcount <= MOST && o == Decide(u, s, a)
    ensures o.stored.Some?
    ensures o.stored.value.failcount ==
      if Took(o) then 0
      else if Counts(u, s, a) && s.value.failcount < MOST then s.value.failcount + 1
      else s.value.failcount
  {
    DecideIsLawful(u, s, a);
    CountsExactly(u, s, a);
  }

  /** After any run the stored count is the number of counted failures since the last success. */
  lemma {:induction false} FailcountIsFailures(u: User, t: Run, n: nat)
    requires IsRun(u, t) && n <= |t.outcomes|
    requires t.states[0].Some? && t.states[0].value.failcount <= MOST
    ensures t.states[n].Some?
    ensures t.states[n].value.failcount == if FailuresSince(u, t, n) <= MOST then FailuresSince(u, t, n) else MOST
  {
    if n > 0 {
      FailcountIsFailures(u, t, n - 1);
      CountAfter(u, t.states[n - 1], t.attempts[n - 1], t.outcomes[n - 1]);
      assert t.states[n] == t.outcomes[n - 1].stored;
    }
  }

  /** Passcodes of the wrong length, however many, change nothing. */
  lemma {:induction false} WrongLengthIsFree(u: User, t: Run, n: nat)
    requires IsRun(u, t) && n <= |t.outcomes|
    requires forall i | 0 <= i < n :: |t.attempts[i].request.passcode| != u.digits + |u.pin|
    ensures t.states[n] == t.states[0]
  {
    if n > 0 {
      WrongLengthIsFree(u, t, n - 1);
      CountsExactly(u, t.states[n - 1], t.attempts[n - 1]);
      assert t.states[n] == t.outcomes[n - 1].stored;
    }
  }
}
