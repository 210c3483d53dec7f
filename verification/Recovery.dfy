/** Two-passcode recovery: a user whose token ran ahead enters two consecutive passcodes in
    different seconds and is let in on the second. */
module Recovery {
  import opened Bytes
  import opened TokenState
  import opened HotpCard
  import opened Verify
  import opened VerifyRuns
  import Counter = HotpCounter
  import HexText

  /** An attempt that reaches the window search and whose update is stored. */
  ghost predicate Served(u: User, s: Option<Record>, a: Attempt) {
    && WellFormed(s) && s.Some? && 6 <= u.digits <= 9
    && a.env.getOk && a.env.inTime && !a.env.put.Failed? && a.request.allowSync
    && |a.request.passcode| == u.digits + |u.pin|
    && 0 <= LastPosition(a.config, u) && a.env.now < TWO31
  }

  /** The entered passcode first matches at position e. */
  ghost predicate FirstAt(u: User, s: Option<Record>, a: Attempt, e: nat)
    requires WellFormed(s) && s.Some?
  {
    FirstMatch(a.config, u, a.request.passcode, Base(s), 0, LastPosition(a.config, u)) == Some(e)
  }

  /** What a served attempt that matches at e does. */
  lemma ServedMatch(u: User, s: Option<Record>, a: Attempt, e: nat)
    requires Served(u, s, a) && FirstAt(u, s, a, e)
    ensures var o := Decide(u, s, a); var r := Awaken(s.value); var asleep := s.value.authtime >= TWO31;
      && o.kept && o.hit == Some(e) && o.fc == FailCondition(a.config, r, asleep, a.env)
      && o.verdict == Verdict(a.config, o.fc, r, a.env.now, e) && (a.env.put.Done? ==> o.rc == o.verdict)
      && o.stored == Some(if o.verdict == OK then Success(r, Base(s), e, a.env.now) else Failure(r, asleep, Some(e), a.env.now))
  {
  }

  /** Accepting position e makes the old position e + 1 the new position 0. */
  lemma NextIsFirst(u: User, config: Config, passcode: string, base: uint64, e: nat, eend: int)
    requires FirstMatch(config, u, passcode, base, 0, eend) == Some(e + 1)
    ensures FirstMatch(config, u, passcode, Counter.At(base, e), 0, eend) == Some(0)
  {
    FirstMatchIsFirst(config, u, passcode, base, 0, eend, e + 1);
    Counter.AheadTwice(base, e + 1, 1);
    assert Counter.At(Counter.At(base, e), 0) == Counter.At(base, e + 1);
  }

  /** Right after a success, a match at position 0 is accepted at once. */
  lemma FreshStateAccepts(u: User, s: Option<Record>, a: Attempt)
    requires Served(u, s, a) && FirstAt(u, s, a, 0) && a.env.put.Done? && a.config.ewindow < TWO31
    requires s.value.failcount == 0 && s.value.rd == "" && s.value.authtime < TWO31
    ensures Decide(u, s, a).rc == OK
  {
    ServedMatch(u, s, a, 0);
  }

  /** The second passcode, when the first was accepted: its counter is now at position 0. */
  lemma SecondAfterSuccess(u: User, s: Option<Record>, a1: Attempt, a2: Attempt, e: nat)
    requires Served(u, s, a1) && FirstAt(u, s, a1, e) && Took(Decide(u, s, a1))
    requires a2.config == a1.config && Served(u, s, a2) && FirstAt(u, s, a2, e + 1) && a2.env.put.Done?
    requires a1.config.ewindow < TWO31
    ensures Decide(u, Decide(u, s, a1).stored, a2).rc == OK
  {
    DecideIsLawful(u, s, a1);
    ServedMatch(u, s, a1, e);
    NextIsFirst(u, a2.config, a2.request.passcode, Base(s), e, LastPosition(a2.config, u));
    FreshStateAccepts(u, Decide(u, s, a1).stored, a2);
  }

  /** With candidate e recorded in an earlier second, a match at e + 1 is refused only in hard
      failure. */
  lemma RecordedStateAccepts(u: User, s: Option<Record>, a: Attempt, e: nat)
    requires Served(u, s, a) && FirstAt(u, s, a, e + 1) && a.env.put.Done? && e < TWO31
    requires s.value.rd == HexText.Print(e) && Awaken(s.value).authtime < a.env.now
    ensures Decide(u, s, a).rc == OK <==> a.config.hardfail == 0 || s.value.failcount < a.config.hardfail
  {
    ServedMatch(u, s, a, e + 1);
    ConsecutiveAfter(e, e + 1);
  }

  /** The second passcode, when the first was only recorded: it is consecutive, so only hard
      failure can stand in its way. */
  lemma SecondAfterCandidate(u: User, s: Option<Record>, a1: Attempt, a2: Attempt, e: nat)
    requires Served(u, s, a1) && FirstAt(u, s, a1, e) && !Took(Decide(u, s, a1))
    requires a2.config == a1.config && Served(u, s, a2) && FirstAt(u, s, a2, e + 1) && a2.env.put.Done?
    requires a1.env.now < a2.env.now
    ensures Decide(u, Decide(u, s, a1).stored, a2).rc == OK <==>
      a1.config.hardfail == 0 || CountFailure(s.value.failcount) < a1.config.hardfail
  {
    ServedMatch(u, s, a1, e);
    DecideIsLawful(u, s, a1);
    FailureTime(Awaken(s.value), s.value.authtime >= TWO31, Some(e), a1.env.now);
    RecordedStateAccepts(u, Decide(u, s, a1).stored, a2, e);
  }

  /** Awake again, a state remembers the second of its last failure. */
  lemma FailureTime(r: Record, nullstate: bool, hit: Option<nat>, now: nat)
    requires now < TWO31
    ensures Awaken(Failure(r, nullstate, hit, now)).authtime == now
  {
  }

  /** Recovery, exactly: from any state, passcodes that first match at positions e and then
      e + 1 of the window, in strictly later seconds, end in success if and only if the first
      was taken (the state holds its success) or hard failure is off or not reached by counting the
      first. */
  lemma TwoPasscodeRecovery(u: User, s: Option<Record>, a1: Attempt, a2: Attempt, e: nat)
    requires Served(u, s, a1) && FirstAt(u, s, a1, e)
    requires a2.config == a1.config && Served(u, s, a2) && FirstAt(u, s, a2, e + 1) && a2.env.put.Done?
    requires a1.env.now < a2.env.now && a1.config.ewindow < TWO31
    ensures Decide(u, Decide(u, s, a1).stored, a2).rc == OK <==>
      Took(Decide(u, s, a1)) || a1.config.hardfail == 0 || CountFailure(s.value.failcount) < a1.config.hardfail
  {
    if Took(Decide(u, s, a1)) {
      SecondAfterSuccess(u, s, a1, a2, e);
    } else {
      SecondAfterCandidate(u, s, a1, a2, e);
    }
  }
}
