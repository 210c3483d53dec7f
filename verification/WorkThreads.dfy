/** Work threads on local state (state.c, local mode): each call to verify takes the user's
    lock, reads the user's file, decides, writes the file and gives the lock back, and the steps
    of different threads interleave freely. */
module WorkThreads {
  import opened Bytes
  import opened TokenState
  import opened HotpCard
  import opened Verify
  import opened VerifyRuns
  import Locks = LockSpec

  /** Where a thread is. since is the time its lock was granted. */
  datatype Phase =
    | Idle
    | Locked(username: string, since: int, attempt: Attempt)
    | Deciding(username: string, since: int, attempt: Attempt, seen: Option<Record>)
    | Releasing(username: string, since: int)

  /** A finished call, up to the release of its lock. */
  datatype Call = Call(username: string, attempt: Attempt, outcome: Outcome)

  datatype System = System(locks: map<string, int>, files: map<string, Record>, threads: seq<Phase>, done: seq<Call>)

  datatype Event =
    | Begin(t: nat, username: string, attempt: Attempt)
    | Read(t: nat)
    | Write(t: nat)
    | Release(t: nat)

  type Users = string -> User

  function FileOf(s: System, u: string): Option<Record> {
    if u in s.files then Some(s.files[u]) else None
  }

  ghost predicate FilesWellFormed(s: System) {
    forall u :: WellFormed(FileOf(s, u))
  }

  // ---- steps --------------------------------------------------------------

  /** A passcode of the wrong length ends a call before state_get. */
  predicate Measured(users: Users, username: string, a: Attempt) {
    |a.request.passcode| == users(username).digits + |users(username).pin|
  }

  /** A call that is refused its lock is one whose state_get fails. */
  predicate Enabled(users: Users, s: System, e: Event, now: int) {
    e.t < |s.threads| &&
    match e
    case Begin(t, username, attempt) => s.threads[t].Idle? &&
      (Measured(users, username, attempt) && !Locks.Grants(s.locks, username, now) ==> !attempt.env.getOk)
    case Read(t) => s.threads[t].Locked?
    case Write(t) => s.threads[t].Deciding? && WellFormed(s.threads[t].seen)
    case Release(t) => s.threads[t].Releasing?
  }

  function Finish(users: Users, s: System, username: string, a: Attempt, seen: Option<Record>): System
    requires WellFormed(seen)
  {
    var o := Decide(users(username), seen, a);
    s.(files := if o.kept && o.stored.Some? then s.files[username := o.stored.value] else s.files,
       done := s.done + [Call(username, a, o)])
  }

  ghost function Apply(users: Users, s: System, e: Event, now: int): System
    requires Enabled(users, s, e, now) && FilesWellFormed(s)
  {
    match e
    case Begin(t, username, attempt) =>
      if Measured(users, username, attempt) && Locks.Grants(s.locks, username, now) then
        s.(locks := Locks.Get(s.locks, username, now), threads := s.threads[t := Locked(username, now, attempt)])
      else
        Finish(users, s, username, attempt, FileOf(s, username))
    case Read(t) =>
      var p := s.threads[t];
      if p.attempt.env.getOk then
        s.(threads := s.threads[t := Deciding(p.username, p.since, p.attempt, FileOf(s, p.username))])
      else
        Finish(users, s, p.username, p.attempt, FileOf(s, p.username))
          .(threads := s.threads[t := Releasing(p.username, p.since)])
    case Write(t) =>
      var p := s.threads[t];
      Finish(users, s, p.username, p.attempt, p.seen).(threads := s.threads[t := Releasing(p.username, p.since)])
    case Release(t) =>
      s.(locks := Locks.Put(s.locks, s.threads[t].username), threads := s.threads[t := Idle])
  }

  datatype Execution = Execution(systems: seq<System>, events: seq<Event>, times: seq<int>)

  ghost predicate Initial(s: System) {
    s.locks == map[] && s.done == [] && FilesWellFormed(s) && forall p | p in s.threads :: p.Idle?
  }

  ghost predicate IsExecution(users: Users, x: Execution) {
    && |x.systems| == |x.events| + 1 == |x.times| + 1 && Initial(x.systems[0])
    && forall i | 0 <= i < |x.events| ::
         && FilesWellFormed(x.systems[i]) && Enabled(users, x.systems[i], x.events[i], x.times[i])
         && x.systems[i + 1] == Apply(users, x.systems[i], x.events[i], x.times[i])
  }

  // ---- holding a lock for less than 24 s ----------------------------------

  /** The clock does not go back, every lock that is given back is given back in time, and
      those still held at the end are not overdue either. */
  ghost predicate PutsInTime(x: Execution)
    requires |x.systems| == |x.events| + 1 == |x.times| + 1
  {
    && (forall i, j | 0 <= i < j < |x.times| :: x.times[i] <= x.times[j])
    && (forall i | 0 <= i < |x.events| && x.events[i].Release? ::
          InTime(x.systems[i], x.events[i].t, x.times[i]))
    && (|x.events| > 0 ==> Timely(x.systems[|x.events|], x.times[|x.events| - 1]))
  }

  predicate InTime(s: System, t: nat, now: int) {
    t < |s.threads| && !s.threads[t].Idle? ==> now < s.threads[t].since + Locks.EXPIRY
  }

  ghost predicate Timely(s: System, now: int) {
    forall t: nat | t < |s.threads| :: InTime(s, t, now)
  }

  /** A thread that is not overdue after a step was not overdue before it, unless the step
      released it. */
  lemma StillHolding(users: Users, s: System, e: Event, now: int, t: nat)
    requires FilesWellFormed(s) && Enabled(users, s, e, now)
    requires InTime(Apply(users, s, e, now), t, now)
    requires e.Release? ==> InTime(s, e.t, now)
    ensures InTime(s, t, now)
  {
  }

  lemma {:induction false} NeverOverdue(users: Users, x: Execution, i: nat)
    requires IsExecution(users, x) && PutsInTime(x) && i < |x.events|
    ensures Timely(x.systems[i], x.times[i])
    decreases |x.events| - i
  {
    var s, s' := x.systems[i], x.systems[i + 1];
    if i + 1 < |x.events| {
      NeverOverdue(users, x, i + 1);
    }
    assert s' == Apply(users, s, x.events[i], x.times[i]);
    assert |s'.threads| == |s.threads|;
    forall t: nat | t < |s.threads| ensures InTime(s, t, x.times[i]) {
      assert InTime(s', t, x.times[i]) by {
        assert InTime(s', t, if i + 1 < |x.events| then x.times[i + 1] else x.times[i]);
      }
      StillHolding(users, s, x.events[i], x.times[i], t);
    }
  }

  // ---- exclusion ----------------------------------------------------------

  /** Between its get and its put a thread is alone with its user. */
  ghost predicate Alone(s: System) {
    forall i, j | 0 <= i < j < |s.threads| && !s.threads[i].Idle? && !s.threads[j].Idle? ::
      s.threads[i].username != s.threads[j].username
  }

  predicate Holds(s: System, t: nat, u: string) {
    t < |s.threads| && !s.threads[t].Idle? && s.threads[t].username == u
  }

  /** The locks are exactly those of the threads between get and put. */
  ghost predicate LocksAreHeld(s: System) {
    && (forall t: nat | t < |s.threads| && !s.threads[t].Idle? ::
          s.threads[t].username in s.locks && s.locks[s.threads[t].username] == s.threads[t].since)
    && (forall u | u in s.locks :: exists t: nat :: Holds(s, t, u))
  }

  /** What a thread has read is still what the file holds. */
  ghost predicate NothingStale(s: System) {
    forall t | 0 <= t < |s.threads| && s.threads[t].Deciding? :: s.threads[t].seen == FileOf(s, s.threads[t].username)
  }

  ghost predicate Exclusive(s: System) {
    FilesWellFormed(s) && Alone(s) && LocksAreHeld(s) && NothingStale(s)
  }

  lemma StepKeepsAlone(users: Users, s: System, e: Event, now: int)
    requires Exclusive(s) && Enabled(users, s, e, now) && Timely(s, now)
    ensures Alone(Apply(users, s, e, now))
  {
    if e.Begin? && Measured(users, e.username, e.attempt) && Locks.Grants(s.locks, e.username, now) {
      NobodyHolds(s, e.username, now);
    }
  }

  /** A lock is granted only if no thread holds it. */
  lemma NobodyHolds(s: System, u: string, now: int)
    requires LocksAreHeld(s) && Timely(s, now) && Locks.Grants(s.locks, u, now)
    ensures u !in s.locks && forall t: nat :: !Holds(s, t, u)
  {
    forall t: nat ensures !Holds(s, t, u) {
      assert t < |s.threads| ==> InTime(s, t, now);
    }
  }

  lemma StepKeepsLocks(users: Users, s: System, e: Event, now: int)
    requires Exclusive(s) && Enabled(users, s, e, now) && Timely(s, now)
    ensures LocksAreHeld(Apply(users, s, e, now))
  {
    var s' := Apply(users, s, e, now);
    if e.Begin? && Measured(users, e.username, e.attempt) && Locks.Grants(s.locks, e.username, now) {
      NobodyHolds(s, e.username, now);
      assert Holds(s', e.t, e.username);
    }
    HoldersStay(users, s, e, now, s');
  }

  /** Who holds a lock that is there before and after a step, holds it before and after. */
  lemma HoldersStay(users: Users, s: System, e: Event, now: int, s': System)
    requires Exclusive(s) && Enabled(users, s, e, now) && s' == Apply(users, s, e, now)
    ensures forall u | u in s.locks && u in s'.locks :: exists t: nat :: Holds(s', t, u)
  {
    forall u | u in s.locks && u in s'.locks ensures exists t: nat :: Holds(s', t, u) {
      var t: nat :| Holds(s, t, u);
      assert Holds(s', t, u);
    }
  }

  lemma StepKeepsFresh(users: Users, s: System, e: Event, now: int)
    requires Exclusive(s) && Enabled(users, s, e, now) && Timely(s, now)
    ensures NothingStale(Apply(users, s, e, now)) && FilesWellFormed(Apply(users, s, e, now))
  {
    var s' := Apply(users, s, e, now);
    if Finishes(users, s, e, now) {
      var (u, a) := FinishedCall(s, e);
      FinishStores(users, s, u, a);
    }
    forall u ensures WellFormed(FileOf(s', u)) {
      assert WellFormed(FileOf(s, u));
    }
  }

  /** The event ends a call. */
  predicate Finishes(users: Users, s: System, e: Event, now: int)
    requires Enabled(users, s, e, now)
  {
    match e
    case Begin(_, username, attempt) => !(Measured(users, username, attempt) && Locks.Grants(s.locks, username, now))
    case Read(t) => !s.threads[t].attempt.env.getOk
    case Write(_) => true
    case Release(_) => false
  }

  function FinishedCall(s: System, e: Event): (string, Attempt)
    requires e.t < |s.threads| && (e.Read? ==> s.threads[e.t].Locked?) && (e.Write? ==> s.threads[e.t].Deciding?) && !e.Release?
  {
    if e.Begin? then (e.username, e.attempt) else (s.threads[e.t].username, s.threads[e.t].attempt)
  }

  /** A call that finishes leaves in the user's file what verify stores, and no other file
      changes. */
  lemma FinishStores(users: Users, s: System, u: string, a: Attempt)
    requires FilesWellFormed(s)
    ensures var s', o := Finish(users, s, u, a, FileOf(s, u)), Decide(users(u), FileOf(s, u), a);
      && FileOf(s', u) == o.stored && WellFormed(o.stored)
      && forall v | v != u :: FileOf(s', v) == FileOf(s, v)
  {
    DecideIsLawful(users(u), FileOf(s, u), a);
  }

  lemma {:induction false} AlwaysExclusive(users: Users, x: Execution, i: nat)
    requires IsExecution(users, x) && PutsInTime(x) && i <= |x.events|
    ensures Exclusive(x.systems[i])
  {
    if i > 0 {
      var s, e, now := x.systems[i - 1], x.events[i - 1], x.times[i - 1];
      AlwaysExclusive(users, x, i - 1);
      NeverOverdue(users, x, i - 1);
      StepKeepsAlone(users, s, e, now);
      StepKeepsLocks(users, s, e, now);
      StepKeepsFresh(users, s, e, now);
    }
  }

  // ---- no update is lost --------------------------------------------------

  /** The finished calls of one user, in the order they finished. */
  function CallsOf(done: seq<Call>, u: string): seq<Call> {
    if done == [] then []
    else
      var front, last := done[..|done| - 1], done[|done| - 1];
      CallsOf(front, u) + if last.username == u then [last] else []
  }

  function AttemptsOf(calls: seq<Call>): seq<Attempt> {
    seq(|calls|, i requires 0 <= i < |calls| => calls[i].attempt)
  }

  /** The calls did, one after the other, what they would have done with no other thread
      around, and left f in the file. */
  ghost predicate Sequential(user: User, before: Option<Record>, calls: seq<Call>, f: Option<Record>)
    requires WellFormed(before)
  {
    Follows(RunFrom(user, before, AttemptsOf(calls)), calls, f)
  }

  ghost predicate Follows(t: Run, calls: seq<Call>, f: Option<Record>) {
    && |t.states| == |calls| + 1 && |t.outcomes| == |calls|
    && f == t.states[|calls|]
    && forall i | 0 <= i < |calls| :: calls[i].outcome == t.outcomes[i]
  }

  lemma {:induction false} StateAfterPrefix(user: User, s: Option<Record>, attempts: seq<Attempt>, a: Attempt, n: nat)
    requires WellFormed(s) && n <= |attempts|
    ensures StateAfter(user, s, attempts + [a], n) == StateAfter(user, s, attempts, n)
  {
    if n > 0 {
      StateAfterPrefix(user, s, attempts, a, n - 1);
    }
  }

  /** One more attempt leaves the run of the earlier ones as it was. */
  lemma RunGrows(user: User, s: Option<Record>, attempts: seq<Attempt>, a: Attempt)
    requires WellFormed(s)
    ensures var t := RunFrom(user, s, attempts); WellFormed(t.states[|attempts|])
    ensures var t := RunFrom(user, s, attempts);
      Grown(t, RunFrom(user, s, attempts + [a]), Decide(user, t.states[|attempts|], a))
  {
    var n := |attempts|;
    forall i | 0 <= i <= n
      ensures StateAfter(user, s, attempts + [a], i) == StateAfter(user, s, attempts, i)
    {
      StateAfterPrefix(user, s, attempts, a, i);
    }
    RunFromAt(user, s, attempts + [a], n);
  }

  /** t' is t and one outcome more. */
  ghost predicate Grown(t: Run, t': Run, o: Outcome) {
    var n := |t.outcomes|;
    && |t'.outcomes| == n + 1 && |t'.states| == n + 2
    && (forall i | 0 <= i < n :: t'.outcomes[i] == t.outcomes[i])
    && t'.outcomes[n] == o && t'.states[n + 1] == o.stored
  }

  lemma FollowsGrown(t: Run, t': Run, calls: seq<Call>, f: Option<Record>, call: Call)
    requires Follows(t, calls, f) && Grown(t, t', call.outcome)
    ensures Follows(t', calls + [call], call.outcome.stored)
  {
  }

  lemma OneMoreCall(user: User, before: Option<Record>, calls: seq<Call>, f: Option<Record>, call: Call)
    requires WellFormed(before) && WellFormed(f) && Sequential(user, before, calls, f)
    requires call.outcome == Decide(user, f, call.attempt)
    ensures Sequential(user, before, calls + [call], call.outcome.stored)
  {
    var attempts := AttemptsOf(calls);
    RunGrows(user, before, attempts, call.attempt);
    assert AttemptsOf(calls + [call]) == attempts + [call.attempt];
    FollowsGrown(RunFrom(user, before, attempts), RunFrom(user, before, attempts + [call.attempt]), calls, f, call);
  }

  /** The effect of a step on files and finished calls. */
  lemma StepEffect(users: Users, s: System, e: Event, now: int)
    requires Exclusive(s) && Enabled(users, s, e, now)
    ensures var s' := Apply(users, s, e, now);
      if Finishes(users, s, e, now) then
        var (v, a) := FinishedCall(s, e);
        var o := Decide(users(v), FileOf(s, v), a);
        s'.done == s.done + [Call(v, a, o)] && FileOf(s', v) == o.stored && WellFormed(o.stored) &&
        forall u | u != v :: FileOf(s', u) == FileOf(s, u)
      else
        s'.done == s.done && s'.files == s.files
  {
    if Finishes(users, s, e, now) {
      var (v, a) := FinishedCall(s, e);
      FinishStores(users, s, v, a);
    }
  }

  lemma StepIsSequential(users: Users, s: System, e: Event, now: int, u: string, before: Option<Record>)
    requires Exclusive(s) && Enabled(users, s, e, now) && WellFormed(before)
    requires Sequential(users(u), before, CallsOf(s.done, u), FileOf(s, u))
    ensures var s' := Apply(users, s, e, now); Sequential(users(u), before, CallsOf(s'.done, u), FileOf(s', u))
  {
    var s' := Apply(users, s, e, now);
    StepEffect(users, s, e, now);
    if Finishes(users, s, e, now) {
      var (v, a) := FinishedCall(s, e);
      var call := Call(v, a, Decide(users(v), FileOf(s, v), a));
      assert s'.done[..|s.done|] == s.done;
      assert CallsOf(s.done, u) + [] == CallsOf(s.done, u);
      if v == u {
        OneMoreCall(users(u), before, CallsOf(s.done, u), FileOf(s, u), call);
      }
    }
  }

  /** No lost update: however the threads interleave, the calls of each user are a run of
      verify, each on what the one before it stored, and the file holds what the last stored. */
  lemma {:induction false} Serializable(users: Users, x: Execution, i: nat, u: string)
    requires IsExecution(users, x) && PutsInTime(x) && i <= |x.events|
    ensures WellFormed(FileOf(x.systems[0], u))
    ensures Sequential(users(u), FileOf(x.systems[0], u), CallsOf(x.systems[i].done, u), FileOf(x.systems[i], u))
  {
    if i > 0 {
      Serializable(users, x, i - 1, u);
      AlwaysExclusive(users, x, i - 1);
      StepIsSequential(users, x.systems[i - 1], x.events[i - 1], x.times[i - 1], u, FileOf(x.systems[0], u));
    }
  }

  /** Replay protection across threads: two successes of one user are for different counters,
      the later for the higher one. */
  lemma ThreadsDoNotReplay(users: Users, x: Execution, n: nat, u: string, i: nat, j: nat)
    requires IsExecution(users, x) && PutsInTime(x) && n <= |x.events| && WellFormed(FileOf(x.systems[0], u))
    requires var calls := CallsOf(x.systems[n].done, u);
      i < j < |calls| && calls[i].outcome.rc == OK && calls[j].outcome.rc == OK
    requires var t := RunFrom(users(u), FileOf(x.systems[0], u), AttemptsOf(CallsOf(x.systems[n].done, u)));
      forall k | i < k <= j && SuccessAt(t, k) :: Unwrapped(t, k)
    ensures var t := RunFrom(users(u), FileOf(x.systems[0], u), AttemptsOf(CallsOf(x.systems[n].done, u)));
      SuccessAt(t, i) && SuccessAt(t, j) && Accepted(t, i) < Accepted(t, j)
  {
    var before := FileOf(x.systems[0], u);
    var calls := CallsOf(x.systems[n].done, u);
    var t := RunFrom(users(u), before, AttemptsOf(calls));
    Serializable(users, x, n, u);
    RunFromIsRun(users(u), before, AttemptsOf(calls));
    RunIsLawful(users(u), t);
    assert t.outcomes[i] == calls[i].outcome && t.outcomes[j] == calls[j].outcome;
    OkIsSuccessAt(users(u), t, i);
    OkIsSuccessAt(users(u), t, j);
    AcceptedCountersIncrease(users(u), t, i, j);
  }

  // ---- why 24 s matter ----------------------------------------------------

  /** Two threads, the second taking the lock over from the first when it expires. */
  function LateEvents(u: string, a: Attempt): seq<Event> {
    [Begin(0, u, a), Begin(1, u, a), Read(0), Read(1), Write(0), Write(1)]
  }

  ghost function Late(users: Users, r: Record, u: string, a: Attempt, n: nat): (s: System)
    requires n <= 6 && |r.challenge| == CHALLENGE_LEN && Measured(users, u, a) && a.env.getOk
    ensures FilesWellFormed(s)
  {
    var phases := [
      [Idle, Idle],
      [Locked(u, 0, a), Idle],
      [Locked(u, 0, a), Locked(u, Locks.EXPIRY, a)],
      [Deciding(u, 0, a, Some(r)), Locked(u, Locks.EXPIRY, a)],
      [Deciding(u, 0, a, Some(r)), Deciding(u, Locks.EXPIRY, a, Some(r))],
      [Releasing(u, 0), Deciding(u, Locks.EXPIRY, a, Some(r))],
      [Releasing(u, 0), Releasing(u, Locks.EXPIRY)]];
    var o := Decide(users(u), Some(r), a);
    var call := Call(u, a, o);
    System(
      if n == 0 then map[] else if n == 1 then map[u := 0] else map[u := Locks.EXPIRY],
      map[u := if n < 5 then r else if o.kept && o.stored.Some? then o.stored.value else r],
      phases[n],
      if n < 5 then [] else if n == 5 then [call] else [call, call])
  }

  /** The time limit is needed: for every passcode that verify accepts there is an execution in
      which an overdue holder and the thread that took over its lock both accept it, for the
      same counter. */
  lemma OverdueHolderReplays(users: Users, r: Record, u: string, a: Attempt) returns (x: Execution)
    requires |r.challenge| == CHALLENGE_LEN && Decide(users(u), Some(r), a).rc == OK
    ensures IsExecution(users, x) && !PutsInTime(x)
    ensures var done := x.systems[|x.events|].done;
      |done| == 2 && done[0] == done[1] == Call(u, a, Decide(users(u), Some(r), a))
  {
    DecideIsLawful(users(u), Some(r), a);
    var e := Locks.EXPIRY;
    x := Execution(seq(7, i requires 0 <= i <= 6 => Late(users, r, u, a, i)), LateEvents(u, a), [0, e, e, e, e, e]);
    assert Initial(x.systems[0]);
    forall i | 0 <= i < 6
      ensures Enabled(users, x.systems[i], x.events[i], x.times[i])
      ensures x.systems[i + 1] == Apply(users, x.systems[i], x.events[i], x.times[i])
    {
      LateStep(users, r, u, a, i);
    }
    assert !InTime(x.systems[6], 0, x.times[5]);
  }

  lemma LateStep(users: Users, r: Record, u: string, a: Attempt, i: nat)
    requires i < 6 && |r.challenge| == CHALLENGE_LEN && Measured(users, u, a) && a.env.getOk
    ensures var s, now := Late(users, r, u, a, i), if i == 0 then 0 else Locks.EXPIRY;
      && Enabled(users, s, LateEvents(u, a)[i], now)
      && Apply(users, s, LateEvents(u, a)[i], now) == Late(users, r, u, a, i + 1)
  {
    if i < 2 {
      LateBegins(users, r, u, a, i);
    } else {
      LateGoesOn(users, r, u, a, i);
    }
  }

  lemma LateBegins(users: Users, r: Record, u: string, a: Attempt, i: nat)
    requires i < 2 && |r.challenge| == CHALLENGE_LEN && Measured(users, u, a) && a.env.getOk
    ensures var s, now := Late(users, r, u, a, i), if i == 0 then 0 else Locks.EXPIRY;
      && Enabled(users, s, LateEvents(u, a)[i], now)
      && Apply(users, s, LateEvents(u, a)[i], now) == Late(users, r, u, a, i + 1)
  {
  }

  lemma LateGoesOn(users: Users, r: Record, u: string, a: Attempt, i: nat)
    requires 2 <= i < 6 && |r.challenge| == CHALLENGE_LEN && Measured(users, u, a) && a.env.getOk
    ensures var s := Late(users, r, u, a, i);
      && Enabled(users, s, LateEvents(u, a)[i], Locks.EXPIRY)
      && Apply(users, s, LateEvents(u, a)[i], Locks.EXPIRY) == Late(users, r, u, a, i + 1)
  {
    var s := Late(users, r, u, a, i);
    assert FileOf(s, u) == Some(s.files[u]);
  }
}
