/** state_get and state_put on a local state directory (state.c): the lock table, the state
    file and the state line together. */
module StateLocal {
  import opened Bytes
  import opened TokenState
  import opened StateText
  import Locks = LockSpec

  /** lock.c as its callers see it; LockTable.Table keeps the same map in its chains. */
  class UserLocks {
    var held: map<string, int>

    constructor ()
      ensures held == map[]
    {
      held := map[];
    }

    /** lock_get. */
    method Get(username: string, now: int) returns (granted: bool)
      modifies this
      ensures granted == Locks.Grants(old(held), username, now)
      ensures held == Locks.Get(old(held), username, now)
    {
      granted := username !in held || now >= held[username] + Locks.EXPIRY;
      if granted {
        held := held[username := now];
      }
    }

    /** lock_put. */
    method Put(username: string)
      modifies this
      ensures held == Locks.Put(old(held), username)
    {
      held := held - {username};
    }
  }

  /** The state directory: one file per user; a missing file reads like an empty one. */
  class Directory {
    var files: map<string, string>

    constructor ()
      ensures files == map[]
    {
      files := map[];
    }

    function Text(username: string): string
      reads this
    {
      if username in files then files[username] else ""
    }

    /** state_read: the number of characters in the buffer, its NUL included, or -1. */
    method Read(buf: array<char>, username: string, ok: bool) returns (nread: int)
      requires buf.Length == MAX_STATE_LEN + 1
      modifies buf
      ensures nread == -1 || 0 <= nread <= buf.Length
      ensures nread == -1 <==> !ok || Buffer(Text(username)).None?
      ensures nread >= 0 ==> Buffer(Text(username)) == Some(buf[..nread])
      ensures nread == -1 <==> !ok || |Text(username)| > 892
      ensures nread >= 0 ==> var file := Text(username);
        buf[..nread] == if file == "" then "" else if file[|file| - 1] == '\n' then file[..|file| - 1] + ['\0'] else file + ['\0']
    {
      var file := Text(username);
      if !ok || |file| > MAX_STATE_LEN {
        return -1;
      }
      nread := 0;
      while nread < |file|
        invariant 0 <= nread <= |file| && buf[..nread] == file[..nread]
      {
        buf[nread] := file[nread];
        nread := nread + 1;
      }
      assert buf[..nread] == file;
      if nread > 0 {
        if buf[nread - 1] == '\n' {
          buf[nread - 1] := '\0';
          assert buf[..nread] == file[..nread - 1] + ['\0'];
        } else {
          buf[nread] := '\0';
          nread := nread + 1;
          assert buf[..nread] == file + ['\0'];
        }
      }
    }

    /** state_write: a temporary file that takes the place of the old one, or no change. */
    method Write(username: string, buf: array<char>, ghost t: string, ok: bool) returns (rc: int)
      requires |t| < buf.Length && '\0' !in t && buf[..|t|] == t && buf[|t|] == '\0'
      modifies this
      ensures rc == if ok then 0 else -1
      ensures files == if ok then old(files)[username := FileText(t)] else old(files)
      ensures ok && t != "" && t[|t| - 1] != '\n' ==> files[username] == t + ['\n']
    {
      if !ok {
        return -1;
      }
      var len := 0;
      while buf[len] != '\0'
        invariant len <= |t| && (len < |t| ==> buf[len] in t)
        decreases |t| - len
      {
        len := len + 1;
        assert len < |t| ==> buf[len] == t[len];
      }
      var line := buf[..len];
      if len > 0 && line[len - 1] != '\n' {
        line := line + "\n";
      }
      files := files[username := line];
      rc := 0;
    }
  }

  /** What a get does to the locks: it keeps the lock only if it can hand out the state. */
  function LocksAfterGet(locks: map<string, int>, username: string, now: int, usable: bool): map<string, int> {
    if !Locks.Grants(locks, username, now) || usable then Locks.Get(locks, username, now)
    else Locks.Put(Locks.Get(locks, username, now), username)
  }

  /** The lock was granted less than 24 s ago. */
  predicate IsHeld(locks: map<string, int>, username: string, now: int) {
    username in locks && now < locks[username] + 24_000_000_000
  }

  /** state_get_local. */
  method StateGetLocal(locks: UserLocks, dir: Directory, username: string, now: int, readOk: bool, state: State)
    returns (rc: int)
    requires '\0' !in username && state.challenge.Length == MAX_CHALLENGE_LEN
    modifies locks, state, state.challenge
    ensures var granted, parsed := Locks.Grants(old(locks.held), username, now), ReadBack(dir.Text(username), username);
      var usable := readOk && !parsed.Bad?;
      && rc == (if granted && usable then 0 else -1)
      && locks.held == LocksAfterGet(old(locks.held), username, now, usable)
      && (rc == 0 ==> !state.updated && state.nullstate == parsed.Null?)
      && (rc == 0 && parsed.Good? ==> state.Valid() && state.Contents() == parsed.r)
    ensures state.locked <==> rc == 0
    ensures readOk && (username !in dir.files || dir.files[username] == "") && !IsHeld(old(locks.held), username, now) ==>
      rc == 0 && state.nullstate
    ensures rc == 0 ==> username in locks.held && locks.held[username] == now
    ensures IsHeld(old(locks.held), username, now) ==> rc != 0 && locks.held == old(locks.held)
    ensures !IsHeld(old(locks.held), username, now) && rc != 0 ==> username !in locks.held
    ensures locks.held - {username} == old(locks.held) - {username}
  {
    NullExactly(dir.Text(username), username);
    state.locked := false;
    var granted := locks.Get(username, now);
    if !granted {
      return -1;
    }
    rc := ReadAndParse(dir, username, readOk, state);
    if rc == -1 {
      locks.Put(username);
      return;
    }
    state.locked, state.updated := true, false;
  }

  /** The part of state_get_local that holds the lock. */
  method ReadAndParse(dir: Directory, username: string, readOk: bool, state: State) returns (rc: int)
    requires '\0' !in username && state.challenge.Length == MAX_CHALLENGE_LEN
    modifies state, state.challenge
    ensures var parsed := ReadBack(dir.Text(username), username);
      && rc == (if readOk && !parsed.Bad? then 0 else -1)
      && (rc == 0 ==> state.nullstate == parsed.Null?)
      && (rc == 0 && parsed.Good? ==> state.Valid() && state.Contents() == parsed.r)
    ensures state.locked == old(state.locked)
  {
    var buf := new char[MAX_STATE_LEN + 1](_ => '\0');
    var len := dir.Read(buf, username, readOk);
    if len == -1 {
      return -1;
    }
    ghost var b := Buffer(dir.Text(username)).value;
    assert b != [] ==> b[|b| - 1] == '\0';
    rc := StateParse(buf, len, username, state);
  }

  /** state_put_local: what it wrote is what the next get reads. */
  method StatePutLocal(locks: UserLocks, dir: Directory, username: string, state: State, writeOk: bool) returns (rc: int)
    requires '\0' !in username && |username| <= MAX_USERNAME_LEN
    requires state.updated ==> state.Valid() && Fits(state.Contents())
    modifies locks, dir, state`locked
    ensures locks.held == Locks.Put(old(locks.held), username)
    ensures rc == (if state.updated && !writeOk then -1 else 0)
    ensures state.updated && rc == 0 ==>
      dir.files == old(dir.files)[username := FileText(Unparse(username, old(state.Contents())))] &&
      ReadBack(dir.Text(username), username) == Good(old(state.Contents()))
    ensures !state.updated || rc != 0 ==> dir.files == old(dir.files)
    ensures !state.locked
  {
    rc := 0;
    if state.updated {
      var buf := new char[MAX_STATE_LEN + 1](_ => '\0');
      ghost var t := StateUnparse(buf, username, state);
      UnparseHasNoNul(username, state.Contents());
      FileRoundTrip(username, state.Contents());
      rc := dir.Write(username, buf, t, writeOk);
    }
    locks.Put(username);
    state.locked := false;
  }

  /** What was put is what the next get hands out, however much later it comes. */
  method PutThenGet(locks: UserLocks, dir: Directory, username: string, state: State, writeOk: bool, later: int)
    returns (put: int, got: int, next: State)
    requires '\0' !in username && |username| <= MAX_USERNAME_LEN
    requires state.updated && state.Valid() && Fits(state.Contents())
    modifies locks, dir, state`locked
    ensures put == 0 ==> got == 0 && next.locked && !next.nullstate
    ensures put == 0 ==> next.Valid() && next.Contents() == state.Contents()
  {
    put := StatePutLocal(locks, dir, username, state, writeOk);
    next := new State();
    got := StateGetLocal(locks, dir, username, later, true, next);
  }
}
