/** verify() of otp.c for an event-synchronous HOTP card and a PAP request: the failure
    condition, the search of the event window, the verdict on a matching passcode, the state
    update and the put-or-fail exit. Decide is the whole call as a function on the stored
    record; Verify is the call itself. */
module Verify {
  import opened Bytes
  import opened TokenState
  import opened HotpCard
  import Counter = HotpCounter

  datatype Rc = OK | AUTH_ERR | MAXTRIES | SERVICE_ERR | NEXTPASSCODE

  datatype Fail = NONE | HARD | SOFT

  datatype Config = Config(hardfail: uint32, softfail: uint32, ewindow: uint32, rwindow: uint32, prependPin: bool)

  datatype Request = Request(passcode: string, allowSync: bool)

  /** What becomes of a put: stored and acknowledged; stored, but the acknowledgement is lost, so
      that state_put reports a failure; or not stored. */
  datatype PutResult = Done | Unheard | Failed

  /** What a call meets on its way: the clock, whether state_get succeeds, whether enough time
      is left after it, what becomes of state_put, and the value an implementation happens to
      give to a shift by a negative count, which C leaves undefined. */
  datatype Env = Env(now: nat, getOk: bool, inTime: bool, put: PutResult, shifted: uint32)

  datatype Attempt = Attempt(config: Config, request: Request, env: Env)

  /** The result of a call, with what the run theorems observe of it: the failure condition it
      computed, the window position that matched, whether a new record was stored, and the
      verdict before the put. */
  datatype Outcome = Outcome(rc: Rc, stored: Option<Record>, fc: Fail, hit: Option<nat>, kept: bool, verdict: Rc)

  // ---- the failure condition ----------------------------------------------

  /** Seconds to wait after fcount failures beyond softfail: 64, doubling up to 2048. */
  function Delay(fcount: int, shifted: uint32): nat {
    if fcount > 5 then 2048 else if fcount >= 0 then 64 * Pow2(fcount) else shifted
  }

  function NextAuth(config: Config, failcount: uint32, authtime: uint32, shifted: uint32): uint32
    requires failcount >= config.softfail
  {
    ToU32(authtime + Delay(ToI32(failcount - config.softfail), shifted))
  }

  function FailCondition(config: Config, r: Record, nullstate: bool, env: Env): Fail {
    if config.hardfail != 0 && r.failcount >= config.hardfail then HARD
    else if config.softfail != 0 && nullstate then SOFT
    else if config.softfail != 0 && r.failcount >= config.softfail &&
            ToU32(env.now) < NextAuth(config, r.failcount, r.authtime, env.shifted) then SOFT
    else NONE
  }

  // ---- the window ---------------------------------------------------------

  /** The last window position: the user's resync window, else the configured one, else the
      event window, each as a signed int. */
  function LastPosition(config: Config, user: User): int {
    ToI32(if user.rwindow != 0 then user.rwindow else if config.rwindow != 0 then config.rwindow else config.ewindow)
  }

  function WithPin(config: Config, user: User, response: string): string {
    if config.prependPin then user.pin + response else response + user.pin
  }

  predicate Matches(config: Config, user: User, passcode: string, base: uint64, e: nat) {
    passcode == WithPin(config, user, user.hotp(Counter.At(base, e)))
  }

  /** The first position from e to eend whose passcode was entered. */
  function FirstMatch(config: Config, user: User, passcode: string, base: uint64, e: nat, eend: int): Option<nat>
    decreases eend - e
  {
    if e > eend then None
    else if Matches(config, user, passcode, base, e) then Some(e)
    else FirstMatch(config, user, passcode, base, e + 1, eend)
  }

  lemma {:induction false} FirstMatchIsFirst(config: Config, user: User, passcode: string, base: uint64, e: nat, eend: int, p: nat)
    ensures FirstMatch(config, user, passcode, base, e, eend) == Some(p) <==>
      (e <= p <= eend && Matches(config, user, passcode, base, p) &&
       forall q: nat | e <= q < p :: !Matches(config, user, passcode, base, q))
    decreases eend - e
  {
    if e <= eend && !Matches(config, user, passcode, base, e) {
      FirstMatchIsFirst(config, user, passcode, base, e + 1, eend, p);
    }
  }

  /** The verdict on a passcode that matches at position e. */
  function Verdict(config: Config, fc: Fail, r: Record, now: nat, e: nat): Rc {
    if fc == HARD then MAXTRIES
    else if IsConsecutive(r.rd, e) then (if ToU32(now) <= r.authtime then NEXTPASSCODE else OK)
    else if fc == SOFT then NEXTPASSCODE
    else if e > ToI32(config.ewindow) then NEXTPASSCODE
    else OK
  }

  // ---- the update ---------------------------------------------------------

  /** The counter does not wrap: it stays at its last value but one. */
  function CountFailure(failcount: uint32): uint32 {
    var f := ToU32(failcount + 1);
    if f == TWO32 - 1 then f - 1 else f
  }

  function Success(r: Record, base: uint64, e: nat, now: nat): Record {
    r.(challenge := Challenge(Counter.At(base, e)), rd := ResyncData(e, true), failcount := 0, authtime := ToU32(now))
  }

  /** A null state is remembered by a negative time. */
  function Failure(r: Record, nullstate: bool, hit: Option<nat>, now: nat): Record {
    r.(rd := if hit.Some? then ResyncData(hit.value, false) else r.rd,
       failcount := CountFailure(r.failcount),
       authtime := if nullstate then ToU32(TWO32 - ToU32(now)) else ToU32(now))
  }

  /** A negative stored time is the sentinel of a null state that never succeeded. */
  function Awaken(r: Record): Record {
    if r.authtime >= TWO31 then r.(authtime := ToU32(TWO32 - r.authtime)) else r
  }

  predicate WellFormed(s: Option<Record>) {
    s.Some? ==> |s.value.challenge| == CHALLENGE_LEN
  }

  /** put-or-fail: an answer stands only if its state update is known to be stored. */
  function Put(rc: Rc, before: Option<Record>, after: Record, fc: Fail, hit: Option<nat>, put: PutResult): Outcome {
    match put
    case Done => Outcome(rc, Some(after), fc, hit, true, rc)
    case Unheard => Outcome(SERVICE_ERR, Some(after), fc, hit, true, rc)
    case Failed => Outcome(SERVICE_ERR, before, fc, hit, false, rc)
  }

  /** The store holds a success, whether or not the call could say so. */
  predicate Took(o: Outcome) {
    o.kept && o.verdict == OK
  }

  function Decide(user: User, s: Option<Record>, a: Attempt): (o: Outcome)
    requires WellFormed(s)
    ensures WellFormed(o.stored)
  {
    var config, env := a.config, a.env;
    if |a.request.passcode| != user.digits + |user.pin| then Outcome(AUTH_ERR, s, NONE, None, false, AUTH_ERR)
    else if !env.getOk || s.None? || !env.inTime then Outcome(SERVICE_ERR, s, NONE, None, false, SERVICE_ERR)
    else
      var nullstate := s.value.authtime >= TWO31;
      var r := Awaken(s.value);
      DecideAwake(user, s, r, nullstate, FailCondition(config, r, nullstate, env), a)
  }

  /** The call once the state is known not to be null; r is the state, its time made positive. */
  function DecideAwake(user: User, s: Option<Record>, r: Record, nullstate: bool, fc: Fail, a: Attempt): (o: Outcome)
    requires WellFormed(s) && WellFormed(Some(r))
    ensures WellFormed(o.stored)
  {
    var config, env := a.config, a.env;
    var eend := LastPosition(config, user);
    if !a.request.allowSync || eend < 0 then
      Put(AUTH_ERR, s, Failure(r, nullstate, None, env.now), fc, None, env.put)
    else if !(6 <= user.digits <= 9) then Outcome(SERVICE_ERR, s, fc, None, false, SERVICE_ERR)
    else
      var base := Value(r.challenge);
      var hit := FirstMatch(config, user, a.request.passcode, base, 0, eend);
      if hit.None? then
        Put(AUTH_ERR, s, Failure(r, nullstate, None, env.now), fc, None, env.put)
      else
        var rc := Verdict(config, fc, r, env.now, hit.value);
        var after := if rc == OK then Success(r, base, hit.value, env.now)
                     else Failure(r, nullstate, hit, env.now);
        Put(rc, s, after, fc, hit, env.put)
  }

  // ---- the call itself ----------------------------------------------------

  /** Where state_get reads and state_put writes; nothing else does during a call. */
  class Store {
    var stored: Option<Record>

    constructor (r: Option<Record>)
      ensures stored == r
    {
      stored := r;
    }

    /** state_get, up to the null state it may report. */
    method Get(state: State, ok: bool) returns (rc: int)
      requires state.Valid() && WellFormed(stored)
      modifies state, state.challenge
      ensures state.Valid() && rc == if ok then 0 else -1
      ensures rc == 0 ==> state.locked && !state.updated && state.nullstate == stored.None?
      ensures rc == 0 && stored.Some? ==> state.Contents() == stored.value
      ensures rc != 0 ==> !state.locked
    {
      state.locked := false;
      if !ok {
        return -1;
      }
      state.nullstate := stored.None?;
      if stored.Some? {
        state.Load(stored.value);
      }
      state.locked, state.updated := true, false;
      rc := 0;
    }

    /** state_put: without an update it only releases the lock. */
    method Put(state: State, put: PutResult) returns (rc: int)
      requires state.Valid()
      modifies this, state`locked
      ensures rc == if put.Done? then 0 else -1
      ensures !state.locked
      ensures stored == if state.updated && !put.Failed? then Some(state.Contents()) else old(stored)
    {
      if state.updated && !put.Failed? {
        stored := Some(state.Contents());
      }
      state.locked := false;
      rc := if put.Done? then 0 else -1;
    }
  }

  /** The verdict on a passcode that matches at position e. */
  method Judge(config: Config, fc: Fail, state: State, now: nat, e: nat) returns (rc: Rc)
    requires state.Valid()
    ensures rc == Verdict(config, fc, state.Contents(), now, e)
  {
    if fc == HARD {
      rc := MAXTRIES;
    } else if IsConsecutive(state.rd, e) {
      if ToU32(now) <= state.authtime {
        rc := NEXTPASSCODE;
      } else {
        rc := OK;
      }
    } else if fc == SOFT {
      rc := NEXTPASSCODE;
    } else if e > ToI32(config.ewindow) {
      rc := NEXTPASSCODE;
    } else {
      rc := OK;
    }
  }

  /** The failure condition. */
  method SetFc(config: Config, state: State, env: Env) returns (fc: Fail)
    requires state.Valid()
    ensures fc == FailCondition(config, state.Contents(), state.nullstate, env)
  {
    fc := NONE;
    if config.hardfail != 0 && state.failcount >= config.hardfail {
      fc := HARD;
    } else if config.softfail != 0 && state.nullstate {
      fc := SOFT;
    } else if config.softfail != 0 && state.failcount >= config.softfail {
      var fcount := ToI32(state.failcount - config.softfail);
      var nextauth := ToU32(state.authtime + Delay(fcount, env.shifted));
      if ToU32(env.now) < nextauth {
        fc := SOFT;
      }
    }
  }

  /** One position: step the challenge, compute the response, compare. */
  method TestPosition(config: Config, user: User, request: Request, state: State, challenge: array<uchar>,
                      ghost base: uint64, ghost e: nat) returns (failed: bool, same: bool)
    requires challenge.Length == MAX_CHALLENGE_LEN
    requires challenge[..CHALLENGE_LEN] == Challenge(Counter.Ahead(base, e))
    modifies state`clen, challenge
    ensures state.clen == CHALLENGE_LEN
    ensures challenge[..CHALLENGE_LEN] == Challenge(Counter.At(base, e))
    ensures failed <==> !(6 <= user.digits <= 9)
    ensures !failed ==> (same <==> Matches(config, user, request.passcode, base, e))
  {
    NextChallenge(state, challenge);
    var response := Response(user, Value(challenge[..CHALLENGE_LEN]));
    failed := response.None?;
    same := response.Some? && request.passcode == WithPin(config, user, response.value);
  }

  method CopyChallenge(from: array<uchar>, to: array<uchar>)
    requires from != to && from.Length == to.Length == MAX_CHALLENGE_LEN
    modifies to
    ensures to[..CHALLENGE_LEN] == old(from[..CHALLENGE_LEN])
  {
    for i := 0 to CHALLENGE_LEN
      invariant to[..i] == from[..i]
    {
      to[i] := from[i];
    }
  }

  /** The sync loop up to a match. On a match at e the buffer holds its challenge. */
  method FindMatch(config: Config, user: User, request: Request, eend: int, state: State, challenge: array<uchar>,
                   ghost base: uint64) returns (err: bool, hit: Option<nat>)
    requires challenge.Length == MAX_CHALLENGE_LEN && state.clen == CHALLENGE_LEN
    requires challenge[..CHALLENGE_LEN] == Challenge(base)
    modifies state`clen, challenge
    ensures state.clen == CHALLENGE_LEN
    ensures err <==> eend >= 0 && !(6 <= user.digits <= 9)
    ensures !err ==> hit == FirstMatch(config, user, request.passcode, base, 0, eend)
    ensures !err && hit.Some? ==> challenge[..CHALLENGE_LEN] == Challenge(Counter.At(base, hit.value))
  {
    var e := 0;
    while e <= eend
      invariant 0 <= e && state.clen == CHALLENGE_LEN
      invariant challenge[..CHALLENGE_LEN] == Challenge(Counter.Ahead(base, e))
      invariant e > 0 ==> 6 <= user.digits <= 9
      invariant FirstMatch(config, user, request.passcode, base, 0, eend)
             == FirstMatch(config, user, request.passcode, base, e, eend)
      decreases eend - e
    {
      var failed, same := TestPosition(config, user, request, state, challenge, base, e);
      if failed {
        return true, None;
      }
      if same {
        return false, Some(e);
      }
      e := e + 1;
    }
    return false, None;
  }

  /** The sync loop with its verdict. err: the response could not be computed; hit: the
      position that matched, rc then being the verdict. */
  method TestWindow(config: Config, user: User, request: Request, now: nat, fc: Fail, eend: int,
                    state: State, challenge: array<uchar>, ghost base: uint64) returns (err: bool, hit: Option<nat>, rc: Rc)
    requires state.Valid() && state.clen == CHALLENGE_LEN && challenge != state.challenge && challenge.Length == MAX_CHALLENGE_LEN
    requires challenge[..CHALLENGE_LEN] == Challenge(base)
    modifies state`clen, state`rd, challenge
    ensures state.Valid() && state.clen == CHALLENGE_LEN
    ensures err <==> eend >= 0 && !(6 <= user.digits <= 9)
    ensures !err ==> hit == FirstMatch(config, user, request.passcode, base, 0, eend)
    ensures !err && hit.Some? ==>
      rc == Verdict(config, fc, old(state.Contents()), now, hit.value) &&
      state.rd == ResyncData(hit.value, rc == OK) &&
      challenge[..CHALLENGE_LEN] == Challenge(Counter.At(base, hit.value))
    ensures err || hit.None? ==> state.rd == old(state.rd)
  {
    err, hit := FindMatch(config, user, request, eend, state, challenge, base);
    rc := if err then SERVICE_ERR else AUTH_ERR;
    if !err && hit.Some? {
      rc := Judge(config, fc, state, now, hit.value);
      UpdateCsd(state, hit.value, rc == OK);
    }
  }

  /** auth_done: record a success or count a failure. */
  method AuthDone(state: State, challenge: array<uchar>, rc: Rc, now: nat)
    requires state.Valid() && state.clen == CHALLENGE_LEN
    requires challenge != state.challenge && challenge.Length == MAX_CHALLENGE_LEN
    modifies state`failcount, state`authtime, state`updated, state.challenge
    ensures state.Valid() && state.updated
    ensures state.challenge[..CHALLENGE_LEN] == old(if rc == OK then challenge[..CHALLENGE_LEN] else state.challenge[..CHALLENGE_LEN])
    ensures state.failcount == if rc == OK then 0 else CountFailure(old(state.failcount))
    ensures state.authtime == if rc != OK && state.nullstate then ToU32(TWO32 - ToU32(now)) else ToU32(now)
  {
    if rc == OK {
      CopyChallenge(challenge, state.challenge);
      state.failcount := 0;
      state.authtime := ToU32(now);
    } else {
      state.failcount := ToU32(state.failcount + 1);
      if state.failcount == TWO32 - 1 {
        state.failcount := state.failcount - 1;
      }
      if state.nullstate {
        state.authtime := ToU32(TWO32 - ToU32(now));
      } else {
        state.authtime := ToU32(now);
      }
    }
    state.updated := true;
  }

  /** The exit of every call that holds the state. */
  method PutOrFail(store: Store, state: State, put: PutResult, answer: Rc) returns (rc: Rc)
    requires state.Valid()
    modifies store, state`locked
    ensures rc == if put.Done? then answer else SERVICE_ERR
    ensures store.stored == if state.updated && !put.Failed? then Some(state.Contents()) else old(store.stored)
  {
    rc := answer;
    var r := store.Put(state, put);
    if r != 0 {
      rc := SERVICE_ERR;
    }
  }

  /** The record that auth_done leaves, rd being up to date. */
  function Finished(r: Record, challenge: seq<uchar>, rc: Rc, nullstate: bool, now: nat): Record {
    if rc == OK then r.(challenge := challenge, failcount := 0, authtime := ToU32(now))
    else r.(failcount := CountFailure(r.failcount),
            authtime := if nullstate then ToU32(TWO32 - ToU32(now)) else ToU32(now))
  }

  method Finish(store: Store, state: State, challenge: array<uchar>, answer: Rc, now: nat, put: PutResult) returns (rc: Rc)
    requires state.Valid() && state.clen == CHALLENGE_LEN
    requires challenge != state.challenge && challenge.Length == MAX_CHALLENGE_LEN
    modifies store, state, state.challenge
    ensures rc == if put.Done? then answer else SERVICE_ERR
    ensures store.stored == if put.Failed? then old(store.stored) else
      Some(Finished(old(state.Contents()), old(challenge[..CHALLENGE_LEN]), answer, old(state.nullstate), now))
  {
    AuthDone(state, challenge, answer, now);
    rc := PutOrFail(store, state, put, answer);
  }

  method Verify(store: Store, config: Config, user: User, request: Request, env: Env) returns (rc: Rc)
    requires WellFormed(store.stored)
    modifies store
    ensures var o := Decide(user, old(store.stored), Attempt(config, request, env));
      rc == o.rc && store.stored == o.stored
  {
    var state := new State();
    if user.digits + |user.pin| != |request.passcode| {
      return AUTH_ERR;
    }
    var got := store.Get(state, env.getOk);
    if got != 0 {
      return SERVICE_ERR;
    }
    assert !state.nullstate ==> state.clen == |state.Contents().challenge|;
    if state.nullstate {
      rc := PutOrFail(store, state, env.put, SERVICE_ERR);
      return;
    } else if ToI32(state.authtime) < 0 {
      state.authtime := ToU32(-ToI32(state.authtime));
      state.nullstate := true;
    }
    if !env.inTime {
      rc := PutOrFail(store, state, env.put, SERVICE_ERR);
      return;
    }
    var fc := SetFc(config, state, env);
    rc := TestAndPut(store, state, config, user, request, env, fc);
  }

  /** Everything after the failure condition is known. */
  method TestAndPut(store: Store, state: State, config: Config, user: User, request: Request, env: Env, fc: Fail)
    returns (rc: Rc)
    requires state.Valid() && state.clen == CHALLENGE_LEN && !state.updated && WellFormed(store.stored)
    modifies store, state, state.challenge
    ensures var o := DecideAwake(user, old(store.stored), old(state.Contents()), old(state.nullstate), fc,
        Attempt(config, request, env));
      rc == o.rc && store.stored == o.stored
  {
    var challenge := new uchar[MAX_CHALLENGE_LEN](_ => 0);
    var answer := AUTH_ERR;
    if request.allowSync {
      var eend := LastPosition(config, user);
      CopyChallenge(state.challenge, challenge);
      ghost var base := Value(state.Contents().challenge);
      ChallengeOfValue(challenge[..CHALLENGE_LEN]);
      var err, hit, verdict := TestWindow(config, user, request, env.now, fc, eend, state, challenge, base);
      if err {
        rc := PutOrFail(store, state, env.put, SERVICE_ERR);
        return;
      }
      if hit.Some? {
        answer := verdict;
      }
    }
    rc := Finish(store, state, challenge, answer, env.now, env.put);
  }
}
