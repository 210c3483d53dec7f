/** In which order the users of each bucket hold their locks in a run of WorkThreads, and so which
    releases lock_put can carry out: what lock.c needs of a run, as a test on the run alone. */
module LockOrder {
  import opened Bytes
  import opened Sequences
  import opened Names = Uhash
  import opened WorkThreads
  import Spec = LockSpec

  /** The users that hold locks of a bucket, the first to lock first, and how many nodes its chain
      has. */
  datatype Shape = Shape(order: seq<string>, size: nat)

  function IndexOf(s: seq<string>, u: string): (k: nat)
    ensures k <= |s| && (k < |s| ==> s[k] == u)
    ensures forall i | 0 <= i < k :: s[i] != u
  {
    if s == [] || s[0] == u then 0
    else
      var k := IndexOf(s[1..], u);
      assert forall i | 0 < i < |s| :: s[i] == s[1..][i - 1];
      k + 1
  }

  function AfterGet(c: Shape, u: string): Shape {
    Shape(c.order + [u], if |c.order| == c.size then c.size + 1 else c.size)
  }

  function AfterPut(c: Shape, u: string): Shape {
    var k := IndexOf(c.order, u);
    if k < |c.order| then Shape(Remove(c.order, k), c.size) else c
  }

  /** The user is not the last to have locked, and every node of the chain is held. */
  predicate PutFaults(c: Shape, u: string) {
    IndexOf(c.order, u) < |c.order| - 1 && |c.order| == c.size
  }

  /** The user is the last to have locked, or not the first and some node is free. */
  predicate PutOk(c: Shape, u: string) {
    var k := IndexOf(c.order, u);
    k == |c.order| - 1 || (0 < k < |c.order| && |c.order| < c.size)
  }

  // ---- along a run --------------------------------------------------------

  /** The event asks for a lock. */
  predicate Asks(users: Users, e: Event) {
    e.Begin? && Measured(users, e.username, e.attempt)
  }

  function NextShapes(users: Users, s: System, e: Event, now: int, c: seq<Shape>): (c': seq<Shape>)
    requires |c| == UHASH_SIZE && (e.Release? ==> e.t < |s.threads| && !s.threads[e.t].Idle?)
    ensures |c'| == UHASH_SIZE
  {
    if Asks(users, e) && Spec.Grants(s.locks, e.username, now) then
      c[Bucket(e.username) := AfterGet(c[Bucket(e.username)], e.username)]
    else if e.Release? then
      var u := s.threads[e.t].username;
      c[Bucket(u) := AfterPut(c[Bucket(u)], u)]
    else c
  }

  ghost function ShapesAt(users: Users, x: Execution, i: nat): (c: seq<Shape>)
    requires IsExecution(users, x) && i <= |x.events|
    ensures |c| == UHASH_SIZE
  {
    if i == 0 then seq(UHASH_SIZE, _ => Shape([], 1))
    else NextShapes(users, x.systems[i - 1], x.events[i - 1], x.times[i - 1], ShapesAt(users, x, i - 1))
  }

  /** The event is not a release, or one that lock_put can carry out. */
  predicate CarriesOut(s: System, e: Event, c: seq<Shape>)
    requires |c| == UHASH_SIZE && (e.Release? ==> e.t < |s.threads| && !s.threads[e.t].Idle?)
  {
    e.Release? ==> PutOk(c[Bucket(s.threads[e.t].username)], s.threads[e.t].username)
  }

  ghost predicate SmoothAt(users: Users, x: Execution, i: nat)
    requires IsExecution(users, x) && i < |x.events|
  {
    CarriesOut(x.systems[i], x.events[i], ShapesAt(users, x, i))
  }

  ghost predicate SmoothTo(users: Users, x: Execution, n: nat)
    requires IsExecution(users, x) && n <= |x.events|
  {
    forall i: nat | i < n :: SmoothAt(users, x, i)
  }

  ghost predicate Smooth(users: Users, x: Execution)
    requires IsExecution(users, x)
  {
    SmoothTo(users, x, |x.events|)
  }

  /** A run is smooth for one more step if that step can be carried out, and else not to its end. */
  lemma OneMoreSmooth(users: Users, x: Execution, n: nat, c: seq<Shape>)
    requires IsExecution(users, x) && n < |x.events| && c == ShapesAt(users, x, n) && SmoothTo(users, x, n)
    ensures x.events[n].Release? ==> x.events[n].t < |x.systems[n].threads| && !x.systems[n].threads[x.events[n].t].Idle?
    ensures ShapesAt(users, x, n + 1) == NextShapes(users, x.systems[n], x.events[n], x.times[n], c)
    ensures if CarriesOut(x.systems[n], x.events[n], c) then SmoothTo(users, x, n + 1)
            else !SmoothAt(users, x, n) && !Smooth(users, x)
  {
    assert Enabled(users, x.systems[n], x.events[n], x.times[n]);
    assert SmoothAt(users, x, n) <==> CarriesOut(x.systems[n], x.events[n], c);
  }

  // ---- claims -------------------------------------------------------------

  /** The user that each thread is between get and put of. */
  type Claims = seq<Option<string>>

  function ClaimsOf(s: System): (claims: Claims)
    ensures |claims| == |s.threads|
  {
    seq(|s.threads|, t requires 0 <= t < |s.threads| => if s.threads[t].Idle? then None else Some(s.threads[t].username))
  }

  ghost predicate IsClaimed(claims: Claims, u: string) {
    exists t: nat :: t < |claims| && claims[t] == Some(u)
  }

  /** The shapes hold the claimed users, each once and in its bucket. */
  ghost predicate Tracks(c: seq<Shape>, claims: Claims) {
    && |c| == UHASH_SIZE
    && (forall b | 0 <= b < UHASH_SIZE :: HoldsClaimed(c[b], b, claims))
    && (forall t | 0 <= t < |claims| && claims[t].Some? :: claims[t].value in c[Bucket(claims[t].value)].order)
  }

  ghost predicate HoldsClaimed(c: Shape, b: nat, claims: Claims) {
    && Distinct(c.order) && |c.order| <= c.size
    && forall u | u in c.order :: Bucket(u) == b && IsClaimed(claims, u)
  }

  lemma MoreClaims(claims: Claims, t: nat, u: string)
    requires t < |claims| && claims[t].None?
    ensures forall v :: IsClaimed(claims[t := Some(u)], v) <==> IsClaimed(claims, v) || v == u
  {
    var claims' := claims[t := Some(u)];
    assert claims'[t] == Some(u);
    forall v | IsClaimed(claims, v) ensures IsClaimed(claims', v) {
      var i: nat :| i < |claims| && claims[i] == Some(v);
      assert claims'[i] == Some(v);
    }
  }

  lemma TracksAfterGet(c: seq<Shape>, claims: Claims, t: nat, u: string)
    requires Tracks(c, claims) && t < |claims| && claims[t].None? && !IsClaimed(claims, u)
    ensures Tracks(c[Bucket(u) := AfterGet(c[Bucket(u)], u)], claims[t := Some(u)])
  {
    var b, claims' := Bucket(u), claims[t := Some(u)];
    MoreClaims(claims, t, u);
    forall a | 0 <= a < UHASH_SIZE
      ensures HoldsClaimed(if a == b then AfterGet(c[b], u) else c[a], a, claims')
    {
      assert HoldsClaimed(c[a], a, claims);
    }
  }

  lemma TracksAfterPut(c: seq<Shape>, claims: Claims, t: nat)
    requires Tracks(c, claims) && t < |claims| && claims[t].Some?
    requires forall i | 0 <= i < |claims| && i != t :: claims[i] != claims[t]
    ensures var u := claims[t].value; Tracks(c[Bucket(u) := AfterPut(c[Bucket(u)], u)], claims[t := None])
  {
    var u, claims' := claims[t].value, claims[t := None];
    forall v | IsClaimed(claims, v) && v != u ensures IsClaimed(claims', v) {
      var i: nat :| i < |claims| && claims[i] == Some(v);
      assert claims'[i] == Some(v);
    }
    DropsOne(c[Bucket(u)], u);
  }

  /** A release takes its user out of the order and leaves the others. */
  lemma DropsOne(c: Shape, u: string)
    requires Distinct(c.order) && u in c.order
    ensures var c' := AfterPut(c, u);
      && Distinct(c'.order) && |c'.order| == |c.order| - 1 && c'.size == c.size
      && forall v :: v in c'.order <==> v in c.order && v != u
  {
    var k, o := IndexOf(c.order, u), AfterPut(c, u).order;
    forall v ensures v in o <==> v in c.order && v != u {
      if v in c.order && v != u {
        var i :| 0 <= i < |c.order| && c.order[i] == v;
        assert o[if i < k then i else i - 1] == v;
      }
    }
  }

  // ---- what a step does to locks and claims -------------------------------

  lemma StepClaims(users: Users, s: System, e: Event, now: int, s': System)
    requires FilesWellFormed(s) && Enabled(users, s, e, now) && s' == Apply(users, s, e, now)
    ensures var claims := ClaimsOf(s);
      if Asks(users, e) then
        claims[e.t].None? && s'.locks == Spec.Get(s.locks, e.username, now) &&
        ClaimsOf(s') == if Spec.Grants(s.locks, e.username, now) then claims[e.t := Some(e.username)] else claims
      else if e.Release? then
        claims[e.t].Some? && s'.locks == Spec.Put(s.locks, claims[e.t].value) && ClaimsOf(s') == claims[e.t := None]
      else
        s'.locks == s.locks && ClaimsOf(s') == claims
  {
  }

  /** A user whose lock is granted was not claimed, if no two threads have one user ... */
  lemma GrantIsNew(users: Users, s: System, e: Event, now: int, s': System)
    requires FilesWellFormed(s) && Enabled(users, s, e, now) && Asks(users, e) && s' == Apply(users, s, e, now)
    requires Alone(s') && Spec.Grants(s.locks, e.username, now)
    ensures !IsClaimed(ClaimsOf(s), e.username)
  {
    assert s'.threads[e.t] == Locked(e.username, now, e.attempt);
    forall i | 0 <= i < |s.threads| && !s.threads[i].Idle? ensures s.threads[i].username != e.username {
      assert s'.threads[i] == s.threads[i];
    }
  }

  /** ... and is claimed once. */
  lemma ClaimIsSingle(s: System, t: nat)
    requires Alone(s) && t < |s.threads| && !s.threads[t].Idle?
    ensures forall i | 0 <= i < |s.threads| && i != t :: ClaimsOf(s)[i] != ClaimsOf(s)[t]
  {
  }

  /** No two threads are between get and put of one user. */
  ghost predicate AllAlone(x: Execution) {
    forall i | 0 <= i < |x.systems| :: Alone(x.systems[i])
  }

  lemma StepTracks(users: Users, s: System, e: Event, now: int, s': System, c: seq<Shape>)
    requires FilesWellFormed(s) && Enabled(users, s, e, now) && s' == Apply(users, s, e, now)
    requires Alone(s) && Alone(s') && Tracks(c, ClaimsOf(s))
    ensures Tracks(NextShapes(users, s, e, now, c), ClaimsOf(s'))
  {
    StepClaims(users, s, e, now, s');
    if Asks(users, e) && Spec.Grants(s.locks, e.username, now) {
      GrantIsNew(users, s, e, now, s');
      TracksAfterGet(c, ClaimsOf(s), e.t, e.username);
    } else if e.Release? {
      ClaimIsSingle(s, e.t);
      TracksAfterPut(c, ClaimsOf(s), e.t);
    }
  }

  lemma {:induction false} ShapesTrack(users: Users, x: Execution, i: nat)
    requires IsExecution(users, x) && AllAlone(x) && i <= |x.events|
    ensures Tracks(ShapesAt(users, x, i), ClaimsOf(x.systems[i]))
  {
    if i == 0 {
      NobodyClaims(x.systems[0]);
    } else {
      ShapesTrack(users, x, i - 1);
      StepTracks(users, x.systems[i - 1], x.events[i - 1], x.times[i - 1], x.systems[i], ShapesAt(users, x, i - 1));
    }
  }

  lemma NobodyClaims(s: System)
    requires Initial(s)
    ensures forall t | 0 <= t < |s.threads| :: ClaimsOf(s)[t].None?
  {
    forall t | 0 <= t < |s.threads| ensures ClaimsOf(s)[t].None? {
      assert s.threads[t] in s.threads;
    }
  }

  /** Runs with locks given back in time have no two threads at one user. */
  lemma PunctualIsAlone(users: Users, x: Execution)
    requires IsExecution(users, x) && PutsInTime(x)
    ensures AllAlone(x)
  {
    forall i | 0 <= i < |x.systems| ensures Alone(x.systems[i]) {
      AlwaysExclusive(users, x, i);
    }
  }

  // ---- a bucket for each --------------------------------------------------

  /** No two threads are between get and put of users of one bucket. */
  ghost predicate OneUserPerBucket(s: System) {
    forall i, j | 0 <= i < j < |s.threads| && !s.threads[i].Idle? && !s.threads[j].Idle? ::
      Bucket(s.threads[i].username) != Bucket(s.threads[j].username)
  }

  ghost predicate NeverShared(x: Execution) {
    forall i | 0 <= i < |x.systems| :: OneUserPerBucket(x.systems[i])
  }

  lemma Claimant(claims: Claims, u: string) returns (t: nat)
    requires IsClaimed(claims, u)
    ensures t < |claims| && claims[t] == Some(u)
  {
    t :| t < |claims| && claims[t] == Some(u);
  }

  lemma SameUser(s: System, u: string, v: string)
    requires OneUserPerBucket(s) && IsClaimed(ClaimsOf(s), u) && IsClaimed(ClaimsOf(s), v) && Bucket(u) == Bucket(v)
    ensures u == v
  {
    var i := Claimant(ClaimsOf(s), u);
    var j := Claimant(ClaimsOf(s), v);
  }

  lemma AtMostOne(s: System, c: seq<Shape>, b: nat)
    requires OneUserPerBucket(s) && Tracks(c, ClaimsOf(s)) && b < UHASH_SIZE
    ensures |c[b].order| <= 1
  {
    var o := c[b].order;
    assert HoldsClaimed(c[b], b, ClaimsOf(s));
    if |o| > 1 {
      assert o[0] in o && o[1] in o;
      SameUser(s, o[0], o[1]);
    }
  }

  /** Such a run is smooth: a lock is always the last of its chain. */
  lemma NeverSharedIsSmooth(users: Users, x: Execution)
    requires IsExecution(users, x) && NeverShared(x)
    ensures AllAlone(x) && Smooth(users, x)
  {
    forall i: nat | i < |x.events| ensures SmoothAt(users, x, i) {
      ShapesTrack(users, x, i);
      OneIsSmooth(users, x.systems[i], x.events[i], x.times[i], ShapesAt(users, x, i));
    }
  }

  lemma OneIsSmooth(users: Users, s: System, e: Event, now: int, c: seq<Shape>)
    requires OneUserPerBucket(s) && Tracks(c, ClaimsOf(s)) && Enabled(users, s, e, now)
    ensures CarriesOut(s, e, c)
  {
    if e.Release? {
      var u := s.threads[e.t].username;
      AtMostOne(s, c, Bucket(u));
      assert ClaimsOf(s)[e.t] == Some(u);
    }
  }
}
