/** The rate limit over runs of attempts: how long delay mode makes a guesser wait. */
module BackOff {
  import opened Bytes
  import opened TokenState
  import opened HotpCard
  import opened Verify
  import opened VerifyRuns

  // ---- the back-off bound -------------------------------------------------

  /** The waits of m delays, one after the other. */
  function TotalDelay(m: nat): nat {
    if m == 0 then 0 else TotalDelay(m - 1) + Delay(m - 1, 0)
  }

  lemma DelayIsCapped(j: nat, shifted: uint32)
    ensures Delay(j, shifted) == 64 * Pow2(if j < 5 then j else 5)
    ensures Delay(j, shifted) <= 2048
  {
    assert Pow2(0) == 1 && Pow2(1) == 2 && Pow2(2) == 4 && Pow2(3) == 8;
    assert Pow2(4) == 2 * Pow2(3) && Pow2(5) == 2 * Pow2(4);
  }

  /** The waits add up to 64 + 128 + .. seconds, each twice the last up to 2048. */
  lemma {:induction false} TotalDelayIs(m: nat)
    ensures TotalDelay(m) == if m <= 6 then 64 * (Pow2(m) - 1) else 4032 + 2048 * (m - 6)
  {
    if m > 0 {
      TotalDelayIs(m - 1);
      DelayIsCapped(m - 1, 0);
      assert Pow2(m) == 2 * Pow2(m - 1);
      if m > 5 {
        PowersToSix();
      }
    }
  }

  lemma PowersToSix()
    ensures Pow2(5) == 32 && Pow2(6) == 64
  {
    assert Pow2(2) == 4;
    assert Pow2(4) == 4 * Pow2(2);
  }

  lemma DelayGrows(i: nat, j: nat, shifted: uint32)
    requires i <= j
    ensures Delay(i, 0) <= Delay(j, shifted)
  {
    DelayIsCapped(i, 0);
    DelayIsCapped(j, shifted);
    Pow2Grows(if i < 5 then i else 5, if j < 5 then j else 5);
  }

  lemma {:induction false} Pow2Grows(i: nat, j: nat)
    requires i <= j
    ensures Pow2(i) <= Pow2(j)
    decreases j
  {
    if i < j {
      Pow2Grows(i, j - 1);
    }
  }

  /** Attempt i was counted with softfail failures or more behind it, outside delay mode: its
      passcode was really compared. */
  predicate Evaluated(t: Run, i: nat, softfail: uint32)
    requires i < |t.outcomes| < |t.states|
  {
    t.outcomes[i].kept && t.states[i].Some? && t.states[i].value.failcount >= softfail && t.outcomes[i].fc == NONE
  }

  function CountEvaluated(t: Run, n: nat, softfail: uint32): nat
    requires n <= |t.outcomes| < |t.states|
  {
    if n == 0 then 0 else CountEvaluated(t, n - 1, softfail) + if Evaluated(t, n - 1, softfail) then 1 else 0
  }

  ghost predicate ClockAdvances(t: Run) {
    forall i, j | 0 <= i <= j < |t.attempts| :: t.attempts[i].env.now <= t.attempts[j].env.now
  }

  /** n failures in a row, starting from a state with none, under one softfail setting. */
  ghost predicate FailingRun(u: User, t: Run, softfail: uint32) {
    && Lawful(u, t) && ClockInRange(t) && ClockAdvances(t)
    && 0 < softfail && |t.attempts| < TWO31
    && t.states[0].Some? && t.states[0].value.failcount == 0 && t.states[0].value.authtime < TWO31
    && forall i | 0 <= i < |t.attempts| :: t.attempts[i].config.softfail == softfail && !Took(t.outcomes[i])
  }

  lemma NotBeforeNextAuth(config: Config, r: Record, env: Env)
    requires FailCondition(config, r, false, env) == NONE && 0 < config.softfail <= r.failcount < TWO31
    requires r.authtime + 2048 < TWO31 && env.now < TWO31
    ensures env.now >= r.authtime + Delay(r.failcount - config.softfail, env.shifted)
  {
    DelayIsCapped(r.failcount - config.softfail, env.shifted);
  }

  /** What delay mode means for one attempt. */
  lemma EvaluatedWaited(u: User, s: Option<Record>, a: Attempt, o: Outcome)
    requires Law(u, s, a, o) && o.kept && o.fc == NONE && s.Some?
    requires 0 < a.config.softfail <= s.value.failcount < TWO31
    requires s.value.authtime + 2048 < TWO31 && a.env.now < TWO31
    ensures a.env.now >= s.value.authtime + Delay(s.value.failcount - a.config.softfail, a.env.shifted)
  {
    NotBeforeNextAuth(a.config, s.value, a.env);
  }

  ghost predicate Bounded(t: Run, n: nat, softfail: uint32)
    requires n <= |t.outcomes| == |t.attempts| < |t.states|
  {
    && t.states[n].Some?
    && var r, m := t.states[n].value, CountEvaluated(t, n, softfail);
      && r.failcount <= n && r.authtime < TWO31
      && m <= (if r.failcount >= softfail then r.failcount - softfail else 0)
      && (r.failcount > 0 ==> n > 0)
      && (r.failcount > 0 ==> t.attempts[0].env.now + TotalDelay(m) <= r.authtime <= t.attempts[n - 1].env.now)
  }

  lemma BoundedStep(u: User, t: Run, n: nat, softfail: uint32)
    requires FailingRun(u, t, softfail) && n < |t.attempts| && Bounded(t, n, softfail)
    ensures Bounded(t, n + 1, softfail)
  {
    assert Law(u, t.states[n], t.attempts[n], t.outcomes[n]);
    assert t.attempts[0].env.now <= t.attempts[n].env.now;
    if n > 0 {
      assert t.attempts[n - 1].env.now <= t.attempts[n].env.now;
    }
    if t.outcomes[n].kept {
      var r, m := t.states[n].value, CountEvaluated(t, n, softfail);
      FailureCounted(u, t.states[n], t.attempts[n], t.outcomes[n]);
      if Evaluated(t, n, softfail) {
        EvaluatedWaited(u, t.states[n], t.attempts[n], t.outcomes[n]);
        DelayGrows(m, r.failcount - softfail, t.attempts[n].env.shifted);
        assert TotalDelay(m + 1) == TotalDelay(m) + Delay(m, 0);
      }
    }
  }

  lemma FailureCounted(u: User, s: Option<Record>, a: Attempt, o: Outcome)
    requires Law(u, s, a, o) && o.kept && o.verdict != OK && s.Some?
    requires s.value.failcount < TWO31 && s.value.authtime < TWO31 && a.env.now < TWO31
    ensures o.stored.Some? && o.stored.value.failcount == s.value.failcount + 1
    ensures o.stored.value.authtime == a.env.now
  {
  }

  lemma {:induction false} AlwaysBounded(u: User, t: Run, n: nat, softfail: uint32)
    requires FailingRun(u, t, softfail) && n <= |t.attempts|
    ensures Bounded(t, n, softfail)
  {
    if n > 0 {
      AlwaysBounded(u, t, n - 1, softfail);
      BoundedStep(u, t, n - 1, softfail);
    }
  }

  /** The back-off bound: m evaluated attempts cost at least the first m delays, 64 s doubling
      up to 2048 s, from the first attempt of the run to the last. */
  lemma BackOffBound(u: User, t: Run, softfail: uint32)
    requires IsRun(u, t) && ClockInRange(t) && ClockAdvances(t)
    requires 0 < softfail && 0 < |t.attempts| < TWO31
    requires t.states[0].Some? && t.states[0].value.failcount == 0 && t.states[0].value.authtime < TWO31
    requires forall i | 0 <= i < |t.attempts| :: t.attempts[i].config.softfail == softfail && !Took(t.outcomes[i])
    ensures var n := |t.attempts|;
      t.attempts[n - 1].env.now - t.attempts[0].env.now >= TotalDelay(CountEvaluated(t, n, softfail))
  {
    RunIsLawful(u, t);
    var n := |t.attempts|;
    AlwaysBounded(u, t, n, softfail);
    assert t.attempts[0].env.now <= t.attempts[n - 1].env.now;
  }

  // ---- the bound is attained ----------------------------------------------

  /** The fastest schedule: softfail attempts at once, then each as soon as it is evaluated. */
  function FastestTime(softfail: uint32, start: nat, i: nat): nat {
    if i < softfail then start else start + TotalDelay(i - softfail + 1)
  }

  /** An attempt of the right length that cannot match, sync mode being off. */
  function FastestAttempt(u: User, softfail: uint32, start: nat, i: nat): Attempt {
    Attempt(Config(0, softfail, 5, 0, true),
            Request(seq(u.digits + |u.pin|, _ => '0'), false),
            Env(FastestTime(softfail, start, i), true, true, Done, 0))
  }

  ghost predicate Fastest(u: User, t: Run, softfail: uint32, start: nat, m: nat) {
    && IsRun(u, t) && |t.attempts| == softfail + m
    && (forall i | 0 <= i < |t.attempts| :: t.attempts[i] == FastestAttempt(u, softfail, start, i))
    && t.states[0].Some? && t.states[0].value.failcount == 0 && t.states[0].value.authtime < TWO31
    && 0 < softfail && softfail + m < TWO31 && start + TotalDelay(m) + 2048 < TWO31
  }

  lemma {:induction false} TotalDelayGrows(i: nat, j: nat)
    requires i <= j
    ensures TotalDelay(i) <= TotalDelay(j)
    decreases j
  {
    if i < j {
      TotalDelayGrows(i, j - 1);
    }
  }

  /** With sync mode off an attempt is counted, whatever its passcode. */
  lemma SyncOffCounts(u: User, s: Option<Record>, a: Attempt)
    requires WellFormed(s) && s.Some? && s.value.authtime < TWO31 && !a.request.allowSync
    requires |a.request.passcode| == u.digits + |u.pin| && a.env.getOk && a.env.inTime && a.env.put.Done?
    ensures var o := Decide(u, s, a);
      && o.rc == AUTH_ERR && o.kept && o.fc == FailCondition(a.config, s.value, false, a.env)
      && o.stored.Some? && o.stored.value.failcount == CountFailure(s.value.failcount)
      && o.stored.value.authtime == ToU32(a.env.now)
  {
  }

  /** Each attempt of the fastest schedule comes just as it is evaluated again. */
  lemma FastestIsEvaluated(u: User, r: Record, softfail: uint32, start: nat, i: nat)
    requires 0 < softfail && i < TWO31 && r.failcount == i && FastestTime(softfail, start, i) + 2048 < TWO31
    requires i > 0 ==> r.authtime == FastestTime(softfail, start, i - 1)
    ensures var a := FastestAttempt(u, softfail, start, i); FailCondition(a.config, r, false, a.env) == NONE
  {
    if i >= softfail {
      FastestWait(softfail, start, i);
      DelayIsCapped(i - softfail, 0);
    }
  }

  /** One attempt of the fastest schedule: counted, and evaluated once softfail is reached. */
  lemma FastestStep(u: User, s: Option<Record>, softfail: uint32, start: nat, i: nat)
    requires WellFormed(s) && s.Some? && 0 < softfail && i < TWO31
    requires s.value.failcount == i && (i > 0 ==> s.value.authtime == FastestTime(softfail, start, i - 1))
    requires s.value.authtime < TWO31 && FastestTime(softfail, start, i) + 2048 < TWO31
    ensures var o := Decide(u, s, FastestAttempt(u, softfail, start, i));
      && o.rc == AUTH_ERR && o.kept && o.fc == NONE
      && o.stored.Some? && o.stored.value.failcount == i + 1
      && o.stored.value.authtime == FastestTime(softfail, start, i)
  {
    FastestIsEvaluated(u, s.value, softfail, start, i);
    SyncOffCounts(u, s, FastestAttempt(u, softfail, start, i));
  }

  lemma FastestWait(softfail: uint32, start: nat, i: nat)
    requires 0 < softfail <= i
    ensures FastestTime(softfail, start, i) == FastestTime(softfail, start, i - 1) + Delay(i - softfail, 0)
  {
    if i == softfail {
      assert TotalDelay(0) == 0;
    }
  }

  /** After n attempts of the fastest schedule. */
  ghost predicate OnSchedule(t: Run, softfail: uint32, start: nat, n: nat)
    requires n <= |t.outcomes| < |t.states|
  {
    && t.states[n].Some? && t.states[n].value.failcount == n && t.states[n].value.authtime < TWO31
    && (n > 0 ==> t.states[n].value.authtime == FastestTime(softfail, start, n - 1) && !Took(t.outcomes[n - 1]))
    && CountEvaluated(t, n, softfail) == if n < softfail then 0 else n - softfail
  }

  lemma NextOnSchedule(u: User, t: Run, softfail: uint32, start: nat, m: nat, n: nat)
    requires Fastest(u, t, softfail, start, m) && n < softfail + m && OnSchedule(t, softfail, start, n)
    ensures OnSchedule(t, softfail, start, n + 1)
  {
    assert FastestTime(softfail, start, n) <= start + TotalDelay(m) by {
      if n >= softfail {
        TotalDelayGrows(n + 1 - softfail, m);
      }
    }
    FastestStep(u, t.states[n], softfail, start, n);
    assert t.outcomes[n] == Decide(u, t.states[n], FastestAttempt(u, softfail, start, n));
    assert t.states[n + 1] == t.outcomes[n].stored;
  }

  lemma {:induction false} StaysOnSchedule(u: User, t: Run, softfail: uint32, start: nat, m: nat, n: nat)
    requires Fastest(u, t, softfail, start, m) && n <= softfail + m
    ensures OnSchedule(t, softfail, start, n)
  {
    if n > 0 {
      StaysOnSchedule(u, t, softfail, start, m, n - 1);
      NextOnSchedule(u, t, softfail, start, m, n - 1);
    }
  }

  /** For every softfail and m there is a run with exactly m evaluated attempts that spans
      exactly the first m delays: the bound cannot be improved. */
  lemma BackOffBoundIsAttained(u: User, t: Run, softfail: uint32, start: nat, m: nat)
    requires Fastest(u, t, softfail, start, m)
    ensures forall i | 0 <= i < |t.attempts| :: !Took(t.outcomes[i]) && t.attempts[i].config.softfail == softfail
    ensures CountEvaluated(t, |t.attempts|, softfail) == m
    ensures t.attempts[|t.attempts| - 1].env.now - t.attempts[0].env.now == TotalDelay(m)
  {
    forall i | 0 <= i < |t.attempts| ensures !Took(t.outcomes[i]) {
      StaysOnSchedule(u, t, softfail, start, m, i + 1);
    }
    StaysOnSchedule(u, t, softfail, start, m, softfail + m);
    assert FastestTime(softfail, start, 0) == start;
    if m == 0 {
      assert TotalDelay(0) == 0;
    }
  }

  lemma FastestRunExists(u: User, s: Option<Record>, softfail: uint32, start: nat, m: nat) returns (t: Run)
    requires WellFormed(s) && s.Some? && s.value.failcount == 0 && s.value.authtime < TWO31
    requires 0 < softfail && softfail + m < TWO31 && start + TotalDelay(m) + 2048 < TWO31
    ensures Fastest(u, t, softfail, start, m) && t.states[0] == s
  {
    var attempts := seq(softfail + m, i requires 0 <= i => FastestAttempt(u, softfail, start, i));
    RunFromIsRun(u, s, attempts);
    t := RunFrom(u, s, attempts);
  }
}
