/** The interleaved threads of WorkThreads on the lock table of lock.c itself. As long as every
    release is one that lock_put can carry out, the linked chains do what the map of WorkThreads
    does, step by step; at the first other release lock_put follows a null pointer or leaves
    something that is no chain. */
module TableThreads {
  import opened Bytes
  import opened Sequences
  import opened Names = Uhash
  import opened WorkThreads
  import opened LockOrder
  import opened LockTable
  import opened Lock
  import Spec = LockSpec

  // ---- the table and the users it is locked for ---------------------------

  /** The chain has this order and size. */
  ghost predicate Stands(row: Row, c: Shape) {
    && |row.nodes| == c.size && |row.entries| == |c.order|
    && forall k | 0 <= k < |c.order| :: row.entries[k].username == c.order[k]
  }

  /** The node is where the user is in the order. */
  ghost predicate IsLockOf(row: Row, order: seq<string>, lock: Node?, u: string) {
    var k := IndexOf(order, u);
    k < |order| && k < |row.nodes| && row.nodes[k] == lock
  }

  /** The chains stand as the shapes say, and each thread has the node that lock_get gave it. */
  ghost predicate Keeps(rows: seq<Row>, c: seq<Shape>, claims: Claims, held: seq<Node?>) {
    && |rows| == |c| == UHASH_SIZE && |held| == |claims|
    && (forall b | 0 <= b < UHASH_SIZE :: Stands(rows[b], c[b]))
    && (forall t | 0 <= t < |claims| && claims[t].Some? ::
          IsLockOf(rows[Bucket(claims[t].value)], c[Bucket(claims[t].value)].order, held[t], claims[t].value))
  }

  // ---- places in the order ------------------------------------------------

  lemma IndexIs(s: seq<string>, u: string, k: nat)
    requires Distinct(s) && k < |s| && s[k] == u
    ensures IndexOf(s, u) == k
  {
  }

  lemma IndexAfterAppend(s: seq<string>, u: string, v: string)
    requires Distinct(s) && u !in s && (v in s || v == u)
    ensures IndexOf(s + [u], v) == if v == u then |s| else IndexOf(s, v)
  {
    var k := if v == u then |s| else IndexOf(s, v);
    IndexIs(s + [u], v, k);
  }

  lemma IndexAfterRemove(s: seq<string>, k: nat, v: string)
    requires Distinct(s) && k < |s| && v in s && v != s[k]
    ensures Distinct(Remove(s, k))
    ensures var i := IndexOf(s, v); i != k && IndexOf(Remove(s, k), v) == if i < k then i else i - 1
  {
    var i := IndexOf(s, v);
    IndexIs(Remove(s, k), v, if i < k then i else i - 1);
  }

  // ---- what a get and a put do to the rows --------------------------------

  lemma HasIsOrder(row: Row, c: Shape, u: string)
    requires Stands(row, c)
    ensures Has(row.entries, u) <==> u in c.order
  {
    if Has(row.entries, u) {
      var i :| 0 <= i < |row.entries| && row.entries[i].username == u;
      assert c.order[i] == u;
    }
    if u in c.order {
      var i :| 0 <= i < |c.order| && c.order[i] == u;
      assert row.entries[i].username == u;
    }
  }

  lemma StandsAfterGet(was: Row, row: Row, c: Shape, u: string, now: int, lock: Node)
    requires Stands(was, c) && u !in c.order && GetsTo(was, row, u, now, lock)
    ensures Stands(row, AfterGet(c, u)) && row.nodes[|c.order|] == lock
  {
    HasIsOrder(was, c, u);
  }

  lemma KeepsAfterGet(rows: seq<Row>, c: seq<Shape>, claims: Claims, held: seq<Node?>, t: nat, u: string, now: int,
                      lock: Node, row: Row)
    requires Keeps(rows, c, claims, held) && Tracks(c, claims) && t < |claims| && claims[t].None? && !IsClaimed(claims, u)
    requires GetsTo(rows[Bucket(u)], row, u, now, lock)
    ensures Keeps(rows[Bucket(u) := row], c[Bucket(u) := AfterGet(c[Bucket(u)], u)], claims[t := Some(u)], held[t := lock])
  {
    var b := Bucket(u);
    var order := c[b].order;
    assert HoldsClaimed(c[b], b, claims);
    StandsAfterGet(rows[b], row, c[b], u, now, lock);
    IndexAfterAppend(order, u, u);
    forall i | 0 <= i < |claims| && claims[i].Some? && Bucket(claims[i].value) == b
      ensures IsLockOf(row, order + [u], held[i], claims[i].value)
    {
      IndexAfterAppend(order, u, claims[i].value);
    }
  }

  /** A refused get changes nothing. */
  lemma SameAfterDenial(rows: seq<Row>, b: nat, row: Row, u: string, now: int)
    requires b < |rows| && GetsTo(rows[b], row, u, now, null) && Has(rows[b].entries, u)
    ensures rows[b := row] == rows
  {
    assert row.nodes == rows[b].nodes;
  }

  lemma StandsAfterPut(was: Row, row: Row, c: Shape, u: string)
    requires Stands(was, c) && Distinct(c.order) && u in c.order && CanPut(was, row, IndexOf(c.order, u))
    ensures Stands(row, AfterPut(c, u))
  {
  }

  lemma LockStays(was: Row, row: Row, c: Shape, u: string, v: string, lock: Node?)
    requires Stands(was, c) && Distinct(c.order) && u in c.order && CanPut(was, row, IndexOf(c.order, u))
    requires v in c.order && v != u && IsLockOf(was, c.order, lock, v)
    ensures IsLockOf(row, AfterPut(c, u).order, lock, v)
  {
    IndexAfterRemove(c.order, IndexOf(c.order, u), v);
  }

  lemma KeepsAfterPut(rows: seq<Row>, c: seq<Shape>, claims: Claims, held: seq<Node?>, t: nat, row: Row)
    requires Keeps(rows, c, claims, held) && Tracks(c, claims) && t < |claims| && claims[t].Some?
    requires forall i | 0 <= i < |claims| && i != t :: claims[i] != claims[t]
    requires var u := claims[t].value; CanPut(rows[Bucket(u)], row, IndexOf(c[Bucket(u)].order, u))
    ensures var u := claims[t].value;
      Keeps(rows[Bucket(u) := row], c[Bucket(u) := AfterPut(c[Bucket(u)], u)], claims[t := None], held)
  {
    var u, b := claims[t].value, Bucket(claims[t].value);
    assert HoldsClaimed(c[b], b, claims);
    StandsAfterPut(rows[b], row, c[b], u);
    forall i | 0 <= i < |claims| && i != t && claims[i].Some? && Bucket(claims[i].value) == b
      ensures IsLockOf(row, AfterPut(c[b], u).order, held[i], claims[i].value)
    {
      LockStays(rows[b], row, c[b], u, claims[i].value, held[i]);
    }
  }

  // ---- the calls ----------------------------------------------------------

  ghost predicate Serves(table: Table, c: seq<Shape>, claims: Claims, held: seq<Node?>)
    reads table.chains, NodesOf(table.chains)
  {
    table.Valid() && Keeps(RowsOf(table.chains), c, claims, held)
  }

  /** A locked user has an entry in the chain of its bucket. */
  lemma LockedHasEntry(table: Table, u: string)
    requires table.Valid() && u in table.Locks()
    ensures Has(RowsOf(table.chains)[Bucket(u)].entries, u)
  {
    LookUp(LocksOf(table.chains), u);
    Spec.InMap(table.chains[Bucket(u)].entries, u);
  }

  /** lock_get, as it changes one row. */
  method GetRow(table: Table, u: string, now: int) returns (lock: Node?, ghost row: Row)
    requires table.Valid()
    modifies table.chains, NodesOf(table.chains)
    ensures table.Valid() && table.NodesGrow()
    ensures table.Locks() == Spec.Get(old(table.Locks()), u, now)
    ensures lock != null <==> Spec.Grants(old(table.Locks()), u, now)
    ensures RowsOf(table.chains) == old(RowsOf(table.chains))[Bucket(u) := row]
    ensures GetsTo(old(RowsOf(table.chains))[Bucket(u)], row, u, now, lock)
  {
    ghost var k;
    lock, k := table.Get(u, now);
    row := RowsOf(table.chains)[Bucket(u)];
  }

  /** lock_get for a user that no thread claims, or that is locked. */
  method Grant(table: Table, ghost c: seq<Shape>, ghost claims: Claims, held: seq<Node?>, t: nat, u: string, now: int)
    returns (granted: bool, held': seq<Node?>)
    requires Serves(table, c, claims, held) && Tracks(c, claims) && t < |claims| && claims[t].None?
    requires Spec.Grants(table.Locks(), u, now) ==> !IsClaimed(claims, u)
    modifies table.chains, NodesOf(table.chains)
    ensures granted <==> Spec.Grants(old(table.Locks()), u, now)
    ensures table.Locks() == Spec.Get(old(table.Locks()), u, now) && table.NodesGrow()
    ensures granted ==> Serves(table, c[Bucket(u) := AfterGet(c[Bucket(u)], u)], claims[t := Some(u)], held')
    ensures !granted ==> Serves(table, c, claims, held')
  {
    ghost var rows := RowsOf(table.chains);
    if u in table.Locks() {
      LockedHasEntry(table, u);
    }
    var lock;
    ghost var row;
    lock, row := GetRow(table, u, now);
    granted, held' := lock != null, held;
    if granted {
      held' := held[t := lock];
      KeepsAfterGet(rows, c, claims, held, t, u, now, lock, row);
    } else {
      SameAfterDenial(rows, Bucket(u), row, u, now);
    }
  }

  /** The node that a thread has is in the chain where its user is in the order. */
  lemma HeldIsThere(table: Table, c: seq<Shape>, claims: Claims, held: seq<Node?>, t: nat)
    requires Serves(table, c, claims, held) && t < |claims| && claims[t].Some?
    ensures var u := claims[t].value;
      held[t] != null && table.HeldAt(held[t], u, IndexOf(c[Bucket(u)].order, u))
  {
    var u := claims[t].value;
    var row := RowsOf(table.chains)[Bucket(u)];
    assert IsLockOf(row, c[Bucket(u)].order, held[t], u) && Stands(row, c[Bucket(u)]);
  }

  /** Whether lock_put faults, and whether it leaves a chain, in terms of the order. */
  lemma PutByOrder(row: Row, c: Shape, u: string)
    requires Stands(row, c) && u in c.order && |c.order| <= c.size
    ensures var k := IndexOf(c.order, u);
      && (Faults(row, k) <==> PutFaults(c, u))
      && (!Faults(row, k) && KeepsShape(row, k) <==> PutOk(c, u))
  {
  }

  /** lock_put by a thread that is alone with its user. */
  method GiveBack(table: Table, ghost c: seq<Shape>, ghost claims: Claims, held: seq<Node?>, t: nat) returns (fault: bool)
    requires Serves(table, c, claims, held) && Tracks(c, claims) && t < |claims| && claims[t].Some?
    requires forall i | 0 <= i < |claims| && i != t :: claims[i] != claims[t]
    modifies table.chains, NodesOf(table.chains)
    ensures var u := claims[t].value; var b := Bucket(u);
      && (fault <==> PutFaults(c[b], u))
      && (!fault && table.Valid() <==> PutOk(c[b], u))
      && (PutOk(c[b], u) ==> Serves(table, c[b := AfterPut(c[b], u)], claims[t := None], held))
    ensures !fault ==> table.Locks() == Spec.Put(old(table.Locks()), claims[t].value) && table.NodesGrow()
  {
    ghost var rows, u, b := RowsOf(table.chains), claims[t].value, Bucket(claims[t].value);
    HeldIsThere(table, c, claims, held, t);
    assert HoldsClaimed(c[b], b, claims);
    PutByOrder(rows[b], c[b], u);
    fault := table.Put(held[t], u, IndexOf(c[b].order, u));
    if !fault {
      KeepsAfterPut(rows, c, claims, held, t, RowsOf(table.chains)[b]);
    }
  }

  // ---- a whole run --------------------------------------------------------

  /** One step of a run, on the real table. */
  method CarryStep(table: Table, users: Users, ghost s: System, e: Event, now: int, ghost s': System,
                   ghost c: seq<Shape>, held: seq<Node?>)
    returns (fault: bool, held': seq<Node?>)
    requires Serves(table, c, ClaimsOf(s), held) && Tracks(c, ClaimsOf(s)) && table.Locks() == s.locks
    requires FilesWellFormed(s) && Enabled(users, s, e, now) && s' == Apply(users, s, e, now)
    requires Alone(s) && Alone(s')
    modifies table.chains, NodesOf(table.chains)
    ensures fault <==> e.Release? && PutFaults(c[Bucket(s.threads[e.t].username)], s.threads[e.t].username)
    ensures !fault && table.Valid() <==> CarriesOut(s, e, c)
    ensures CarriesOut(s, e, c) ==> Serves(table, NextShapes(users, s, e, now, c), ClaimsOf(s'), held')
    ensures !fault ==> table.Locks() == s'.locks && table.NodesGrow()
  {
    fault, held' := false, held;
    StepClaims(users, s, e, now, s');
    if Asks(users, e) {
      if Spec.Grants(s.locks, e.username, now) {
        GrantIsNew(users, s, e, now, s');
      }
      var granted;
      granted, held' := Grant(table, c, ClaimsOf(s), held, e.t, e.username, now);
    } else if e.Release? {
      ClaimIsSingle(s, e.t);
      fault := GiveBack(table, c, ClaimsOf(s), held, e.t);
    }
  }

  lemma ServesNobody(s: System, table: Table, held: seq<Node?>)
    requires Initial(s) && |held| == |s.threads|
    requires table.Valid() && forall i | 0 <= i < UHASH_SIZE :: table.chains[i].entries == [] && |table.chains[i].nodes| == 1
    ensures Serves(table, seq(UHASH_SIZE, _ => Shape([], 1)), ClaimsOf(s), held)
  {
    NobodyClaims(s);
  }

  /** Any run of the threads with no two at one user, on a table as lock_init leaves it, up to the
      first release that lock_put cannot carry out. The run is carried out to its end, with the
      locks that it grants and refuses, exactly when it is smooth. */
  method Carry(table: Table, users: Users, x: Execution) returns (done: nat, fault: bool)
    requires table.Valid() && table.Locks() == map[]
    requires forall i | 0 <= i < UHASH_SIZE :: table.chains[i].entries == [] && |table.chains[i].nodes| == 1
    requires IsExecution(users, x) && AllAlone(x)
    modifies table.chains, NodesOf(table.chains)
    ensures done <= |x.events| && (done == |x.events| <==> Smooth(users, x))
    ensures SmoothTo(users, x, done)
    ensures done == |x.events| ==> !fault && table.Valid() && table.Locks() == x.systems[done].locks
    ensures done < |x.events| ==> x.events[done].Release? && Breaks(table, users, x, done, fault)
  {
    var held: seq<Node?> := seq(|x.systems[0].threads|, _ => null);
    var c := seq(UHASH_SIZE, _ => Shape([], 1));
    ServesNobody(x.systems[0], table, held);
    done, fault := 0, false;
    while done < |x.events|
      invariant done <= |x.events| && !fault && table.NodesGrow()
      invariant c == ShapesAt(users, x, done)
      invariant Serves(table, c, ClaimsOf(x.systems[done]), held) && table.Locks() == x.systems[done].locks
      invariant SmoothTo(users, x, done)
    {
      var s, e := x.systems[done], x.events[done];
      ShapesTrack(users, x, done);
      OneMoreSmooth(users, x, done, c);
      fault, held := CarryStep(table, users, s, e, x.times[done], x.systems[done + 1], c, held);
      if !CarriesOut(s, e, c) {
        return;
      }
      c := NextShapes(users, s, e, x.times[done], c);
      done := done + 1;
    }
  }

  /** Step i gives back a lock, and lock_put follows a null pointer or leaves no table. */
  ghost predicate Breaks(table: Table, users: Users, x: Execution, i: nat, fault: bool)
    requires IsExecution(users, x) && i < |x.events| && x.events[i].Release?
    reads table.chains, NodesOf(table.chains)
  {
    var u := x.systems[i].threads[x.events[i].t].username;
    var c := ShapesAt(users, x, i)[Bucket(u)];
    && !SmoothAt(users, x, i) && (fault <==> PutFaults(c, u)) && (!fault ==> !table.Valid())
  }

  // ---- two users of one bucket --------------------------------------------

  /** On a table as lock_init leaves it, any two users of one bucket lock, and the first to lock
      gives its lock back first; lock_put follows a null pointer. */
  method SharedBucketFaults(table: Table, u: string, v: string, now: int) returns (fault: bool)
    requires u != v && Bucket(u) == Bucket(v)
    requires table.Valid() && table.Locks() == map[]
    requires RowsOf(table.chains)[Bucket(u)].entries == [] && |RowsOf(table.chains)[Bucket(u)].nodes| == 1
    modifies table.chains, NodesOf(table.chains)
    ensures fault
  {
    ghost var row;
    var lock;
    lock, row := FirstLock(table, u, now);
    row := SecondLock(table, v, now, row);
    fault := PutHeld(table, lock, u, row);
  }

  method FirstLock(table: Table, u: string, now: int) returns (lock: Node, ghost row: Row)
    requires table.Valid() && table.Locks() == map[]
    requires RowsOf(table.chains)[Bucket(u)].entries == [] && |RowsOf(table.chains)[Bucket(u)].nodes| == 1
    modifies table.chains, NodesOf(table.chains)
    ensures table.Valid() && table.NodesGrow() && table.Locks() == map[u := now]
    ensures row == RowsOf(table.chains)[Bucket(u)] && row.entries == [Spec.Entry(u, now)] && row.nodes == [lock]
  {
    var l;
    ghost var before := RowsOf(table.chains)[Bucket(u)];
    l, row := GetRow(table, u, now);
    lock := l;
    FirstGet(before, row, u, now, lock);
  }

  lemma FirstGet(was: Row, row: Row, u: string, now: int, lock: Node)
    requires GetsTo(was, row, u, now, lock) && was.entries == [] && |was.nodes| == 1
    ensures row.entries == [Spec.Entry(u, now)] && row.nodes == [lock]
  {
  }

  lemma SecondGet(was: Row, row: Row, v: string, now: int, lock: Node)
    requires GetsTo(was, row, v, now, lock) && |was.entries| == |was.nodes| == 1 && was.entries[0].username != v
    ensures |row.entries| == |row.nodes| == 2
    ensures row.entries[0] == was.entries[0] && row.nodes[0] == was.nodes[0]
  {
  }

  method SecondLock(table: Table, v: string, now: int, ghost before: Row) returns (ghost row: Row)
    requires table.Valid() && before == RowsOf(table.chains)[Bucket(v)]
    requires |before.entries| == |before.nodes| == 1 && v !in table.Locks() && before.entries[0].username != v
    modifies table.chains, NodesOf(table.chains)
    ensures table.Valid() && table.NodesGrow() && row == RowsOf(table.chains)[Bucket(v)]
    ensures |row.entries| == |row.nodes| == 2
    ensures row.entries[0] == before.entries[0] && row.nodes[0] == before.nodes[0]
  {
    var lock;
    lock, row := GetRow(table, v, now);
    SecondGet(before, row, v, now, lock);
  }

  method PutHeld(table: Table, lock: Node, ghost u: string, ghost row: Row) returns (fault: bool)
    requires table.Valid() && row == RowsOf(table.chains)[Bucket(u)]
    requires |row.entries| == |row.nodes| == 2 && row.entries[0].username == u && row.nodes[0] == lock
    modifies table.chains, NodesOf(table.chains)
    ensures fault
  {
    fault := table.Put(lock, u, 0);
  }
}
