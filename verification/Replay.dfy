/** Why the windows must not wrap around: a run in which one passcode is let in twice, for one
    counter. The resync window can be as long as 2^31 - 1, and two such windows lead all the way
    round the low word of the counter. */
module Replay {
  import opened Bytes
  import opened TokenState
  import opened HotpCard
  import opened Verify
  import opened VerifyRuns
  import opened Recovery
  import Counter = HotpCounter

  /** far is the last position of the longest window, one the counter that is accepted first,
      and half the one at the end of the window after it. */
  ghost predicate Round(far: nat, one: uint64, half: uint64) {
    far == TWO31 - 1 && one == 1 && half == Counter.At(one, far)
  }

  lemma HalfWay(far: nat, one: uint64, half: uint64)
    requires Round(far, one, half)
    ensures Counter.Lo(half) == TWO31 + 1 && half != one
  {
    Counter.AheadGoesUp(one, far + 1);
  }

  /** Two windows lead back to the same counter, for the first time at their ends. */
  lemma AllTheWay(far: nat, one: uint64, half: uint64)
    requires Round(far, one, half)
    ensures Counter.At(half, far) == one
    ensures forall q: nat | q < far :: Counter.At(one, q) != half && Counter.At(half, q) != one
  {
    HalfWay(far, one, half);
    Counter.AheadWraps(half, far + 1);
    forall q: nat | q < far ensures Counter.At(one, q) != half && Counter.At(half, q) != one {
      Counter.AheadGoesUp(one, q + 1);
      NotOneYet(half, q);
    }
  }

  lemma NotOneYet(half: uint64, q: nat)
    requires Counter.Lo(half) == TWO31 + 1 && q < TWO31 - 1
    ensures Counter.At(half, q) != 1
  {
    if Counter.Lo(half) + q + 1 < TWO32 {
      Counter.AheadGoesUp(half, q + 1);
    } else {
      Counter.AheadWraps(half, q + 1);
    }
  }

  lemma FirstIsOne(zero: uint64, first: nat)
    requires zero == 0 && first == 0
    ensures Counter.At(zero, first) == 1
  {
    assert Counter.Ahead(zero, 0) == zero;
    Counter.NextIsSuccessor(zero);
  }

  // ---- the token and its user ---------------------------------------------

  /** No other counter has the passcode of one of the two. */
  ghost predicate TellsApart(u: User, one: uint64, half: uint64) {
    && 6 <= u.digits <= 9 && u.pin == "" && u.rwindow == 0
    && (forall c: uint64 {:trigger u.hotp(c)} :: u.hotp(c) == u.hotp(one) ==> c == one)
    && (forall c: uint64 {:trigger u.hotp(c)} :: u.hotp(c) == u.hotp(half) ==> c == half)
    && |u.hotp(one)| == |u.hotp(half)| == u.digits
  }

  lemma SuchAToken(one: uint64, half: uint64) returns (u: User)
    requires one != half
    ensures TellsApart(u, one, half)
  {
    u := User("", 0, 6, "", (c: uint64) => if c == one then "000001" else if c == half then "000002" else "000000");
  }

  const WIDE := Config(0, 0, 0x7fff_ffff, 0, true)

  function At(c: uint64, now: nat): Option<Record>
    requires now < TWO31
  {
    Some(Record(Challenge(c), "", "", 0, now, 0))
  }

  function Try(u: User, c: uint64, now: nat): Attempt {
    Attempt(WIDE, Request(u.hotp(c), true), Env(now, true, true, Done, 0))
  }

  /** The entered passcode first matches where its counter first comes. */
  lemma FirstThere(u: User, base: uint64, e: nat, c: uint64)
    requires u.pin == "" && e < TWO31 && Counter.At(base, e) == c
    requires forall q: nat | q < e :: u.hotp(Counter.At(base, q)) != u.hotp(c)
    ensures FirstMatch(WIDE, u, u.hotp(c), base, 0, TWO31 - 1) == Some(e)
  {
    assert WithPin(WIDE, u, u.hotp(c)) == u.hotp(c);
    forall q: nat | q < e ensures !Matches(WIDE, u, u.hotp(c), base, q) {
      assert WithPin(WIDE, u, u.hotp(Counter.At(base, q))) == u.hotp(Counter.At(base, q));
    }
    FirstMatchIsFirst(WIDE, u, u.hotp(c), base, 0, TWO31 - 1, e);
  }

  /** With no fail limits and nothing recorded, a first match in the event window is let in. */
  lemma FreshMatchTaken(u: User, s: Option<Record>, a: Attempt, e: nat)
    requires Served(u, s, a) && FirstAt(u, s, a, e) && a.env.put.Done?
    requires a.config.hardfail == a.config.softfail == 0 && e <= ToI32(a.config.ewindow)
    requires s.value.rd == "" && s.value.authtime < TWO31
    ensures var o := Decide(u, s, a);
      o.rc == OK && Took(o) && o.hit == Some(e) && o.stored == Some(Success(s.value, Base(s), e, a.env.now))
  {
    ServedMatch(u, s, a, e);
  }

  /** The call takes a match at e and leads from one state to the next. */
  ghost predicate Takes(u: User, s: Option<Record>, a: Attempt, e: nat, next: Option<Record>) {
    && WellFormed(s) && s.Some?
    && var o := Decide(u, s, a); o.rc == OK && Took(o) && o.hit == Some(e) && o.stored == next
  }

  lemma LetIn(u: User, base: uint64, e: nat, c: uint64, now: nat)
    requires 6 <= u.digits <= 9 && u.pin == "" && u.rwindow == 0 && |u.hotp(c)| == u.digits
    requires now + 1 < TWO31 && e < TWO31 && Counter.At(base, e) == c
    requires forall q: nat | q < e :: u.hotp(Counter.At(base, q)) != u.hotp(c)
    ensures Takes(u, At(base, now), Try(u, c, now + 1), e, At(c, now + 1))
  {
    var s, a := At(base, now), Try(u, c, now + 1);
    TryIsServed(u, base, c, now);
    FirstThere(u, base, e, c);
    assert FirstAt(u, s, a, e);
    FreshMatchTaken(u, s, a, e);
    NextAt(base, e, c, now);
  }

  lemma NextAt(base: uint64, e: nat, c: uint64, now: nat)
    requires now + 1 < TWO31 && Counter.At(base, e) == c
    ensures Success(At(base, now).value, base, e, now + 1) == At(c, now + 1).value
  {
  }

  lemma TryIsServed(u: User, base: uint64, c: uint64, now: nat)
    requires 6 <= u.digits <= 9 && u.pin == "" && u.rwindow == 0 && |u.hotp(c)| == u.digits && now + 1 < TWO31
    ensures Served(u, At(base, now), Try(u, c, now + 1)) && Base(At(base, now)) == base
    ensures LastPosition(WIDE, u) == TWO31 - 1
  {
  }

  lemma NoneBefore(u: User, one: uint64, half: uint64, base: uint64, e: nat, c: uint64)
    requires TellsApart(u, one, half) && c in {one, half} && forall q: nat | q < e :: Counter.At(base, q) != c
    ensures forall q: nat | q < e :: u.hotp(Counter.At(base, q)) != u.hotp(c)
  {
  }

  // ---- the run ------------------------------------------------------------

  /** Three calls in a row that each take a match. */
  lemma ThreeSteps(u: User, s0: Option<Record>, s1: Option<Record>, s2: Option<Record>, s3: Option<Record>,
                   a0: Attempt, a1: Attempt, a2: Attempt, e0: nat, e1: nat, e2: nat) returns (t: Run)
    requires Takes(u, s0, a0, e0, s1) && Takes(u, s1, a1, e1, s2) && Takes(u, s2, a2, e2, s3) && WellFormed(s3)
    ensures IsRun(u, t) && |t.attempts| == |t.outcomes| == 3
    ensures t.states[0] == s0 && t.states[2] == s2 && t.attempts[0] == a0 && t.attempts[2] == a2
    ensures t.outcomes[0].rc == t.outcomes[1].rc == t.outcomes[2].rc == OK
    ensures SuccessAt(t, 0) && SuccessAt(t, 2) && t.outcomes[0].hit == Some(e0) && t.outcomes[2].hit == Some(e2)
  {
    var o0, o1, o2 := Decide(u, s0, a0), Decide(u, s1, a1), Decide(u, s2, a2);
    t := Run([s0, s1, s2, s3], [a0, a1, a2], [o0, o1, o2]);
  }

  /** Three successes, of which the third is for the counter of the first. */
  lemma RoundTheCounter(u: User, zero: uint64, far: nat, one: uint64, half: uint64, first: nat, now: nat) returns (t: Run)
    requires zero == 0 && Round(far, one, half) && TellsApart(u, one, half) && first == 0 && now == 0
    ensures IsRun(u, t) && |t.attempts| == |t.outcomes| == 3
    ensures t.outcomes[0].rc == t.outcomes[1].rc == t.outcomes[2].rc == OK
    ensures SuccessAt(t, 0) && SuccessAt(t, 2) && Accepted(t, 0) == one == Accepted(t, 2)
    ensures t.attempts[0].request == t.attempts[2].request
  {
    AllTheWay(far, one, half);
    FirstTake(u, zero, one, half, first, now);
    FarTake(u, far, one, half, one, half, now + 1);
    FarTake(u, far, half, one, one, half, now + 2);
    t := ThreeSteps(u, At(zero, now), At(one, now + 1), At(half, now + 2), At(one, now + 3),
                    Try(u, one, now + 1), Try(u, half, now + 2), Try(u, one, now + 3), first, far, far);
    FirstIsOne(zero, first);
    BaseOf(zero, now);
    BaseOf(half, now + 2);
  }

  lemma FirstTake(u: User, zero: uint64, one: uint64, half: uint64, first: nat, now: nat)
    requires zero == 0 && one == 1 && first == 0 && now < 10 && TellsApart(u, one, half)
    ensures Takes(u, At(zero, now), Try(u, one, now + 1), first, At(one, now + 1))
  {
    FirstIsOne(zero, first);
    LetIn(u, zero, first, one, now);
  }

  /** The match at the end of a window that leads from c to d. */
  lemma FarTake(u: User, far: nat, c: uint64, d: uint64, one: uint64, half: uint64, now: nat)
    requires far == TWO31 - 1 && now < 10 && TellsApart(u, one, half) && d in {one, half}
    requires Counter.At(c, far) == d && forall q: nat | q < far :: Counter.At(c, q) != d
    ensures Takes(u, At(c, now), Try(u, d, now + 1), far, At(d, now + 1))
  {
    NoneBefore(u, one, half, c, far, d);
    LetIn(u, c, far, d, now);
  }

  lemma BaseOf(c: uint64, now: nat)
    requires now < TWO31
    ensures WellFormed(At(c, now)) && Base(At(c, now)) == c
  {
  }

  /** A replay: with windows this long there is a run that lets one passcode in twice, for one
      counter. */
  lemma PasscodeIsReplayed() returns (u: User, t: Run)
    ensures IsRun(u, t) && |t.outcomes| == 3
    ensures t.outcomes[0].rc == t.outcomes[2].rc == OK
    ensures SuccessAt(t, 0) && SuccessAt(t, 2) && Accepted(t, 0) == Accepted(t, 2)
    ensures t.attempts[0].request == t.attempts[2].request
  {
    var far: nat, zero: uint64, one: uint64 := TWO31 - 1, 0, 1;
    var half := Counter.At(one, far);
    HalfWay(far, one, half);
    u := SuchAToken(one, half);
    t := RoundTheCounter(u, zero, far, one, half, 0, 0);
  }
}
