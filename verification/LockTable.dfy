/** The 64 lock chains of lock.c together: one map from user name to grant time. */
module LockTable {
  import opened Bytes
  import opened Sequences
  import opened Lock
  import opened Names = Uhash
  import Spec = LockSpec

  // ---- maps by bucket -----------------------------------------------------

  /** Each map holds only users of its own bucket. */
  ghost predicate Bucketed(ms: seq<map<string, int>>) {
    |ms| == UHASH_SIZE && forall i, u | 0 <= i < UHASH_SIZE && u in ms[i] :: Bucket(u) == i
  }

  function Union(ms: seq<map<string, int>>): map<string, int> {
    if ms == [] then map[] else Union(ms[..|ms| - 1]) + ms[|ms| - 1]
  }

  lemma {:induction false} InUnion(ms: seq<map<string, int>>, b: nat, u: string)
    requires b < |ms| && forall i | 0 <= i < |ms| && i != b :: u !in ms[i]
    ensures u in Union(ms) <==> u in ms[b]
    ensures u in ms[b] ==> Union(ms)[u] == ms[b][u]
  {
    var n := |ms| - 1;
    if b < n {
      InUnion(ms[..n], b, u);
    } else {
      NotInUnion(ms[..n], u);
    }
  }

  lemma {:induction false} NotInUnion(ms: seq<map<string, int>>, u: string)
    requires forall m | m in ms :: u !in m
    ensures u !in Union(ms)
  {
    if ms != [] {
      NotInUnion(ms[..|ms| - 1], u);
    }
  }

  /** The table is looked up in the one bucket of the name. */
  lemma LookUp(ms: seq<map<string, int>>, u: string)
    requires Bucketed(ms)
    ensures u in Union(ms) <==> u in ms[Bucket(u)]
    ensures u in Union(ms) ==> Union(ms)[u] == ms[Bucket(u)][u]
  {
    InUnion(ms, Bucket(u), u);
  }

  lemma StaysBucketed(ms: seq<map<string, int>>, b: nat, m: map<string, int>)
    requires Bucketed(ms) && b < UHASH_SIZE && forall u | u in m :: Bucket(u) == b
    ensures Bucketed(ms[b := m])
  {
  }

  lemma GetInBucket(ms: seq<map<string, int>>, u: string, now: int)
    requires Bucketed(ms)
    ensures var b := Bucket(u); var ms' := ms[b := Spec.Get(ms[b], u, now)];
      Bucketed(ms') && Union(ms') == Spec.Get(Union(ms), u, now)
    ensures Spec.Grants(ms[Bucket(u)], u, now) <==> Spec.Grants(Union(ms), u, now)
    ensures u in ms[Bucket(u)] <==> u in Union(ms)
  {
    var b := Bucket(u);
    var ms' := ms[b := Spec.Get(ms[b], u, now)];
    LookUp(ms, u);
    forall v ensures v in Union(ms') <==> v in Spec.Get(Union(ms), u, now)
      ensures v in Union(ms') ==> Union(ms')[v] == Spec.Get(Union(ms), u, now)[v]
    {
      LookUp(ms, v);
      LookUp(ms', v);
    }
  }

  lemma GetKeepsBucket(m: map<string, int>, b: nat, username: string, now: int)
    requires Bucket(username) == b && forall u | u in m :: Bucket(u) == b
    ensures forall u | u in Spec.Get(m, username, now) :: Bucket(u) == b
  {
  }

  lemma PutInBucket(ms: seq<map<string, int>>, u: string)
    requires Bucketed(ms)
    ensures var b := Bucket(u); var ms' := ms[b := Spec.Put(ms[b], u)];
      Bucketed(ms') && Union(ms') == Spec.Put(Union(ms), u)
  {
    var b := Bucket(u);
    var ms' := ms[b := Spec.Put(ms[b], u)];
    forall v ensures v in Union(ms') <==> v in Spec.Put(Union(ms), u)
      ensures v in Union(ms') ==> Union(ms')[v] == Spec.Put(Union(ms), u)[v]
    {
      LookUp(ms, v);
      LookUp(ms', v);
    }
  }

  lemma {:induction false} EmptyUnion(ms: seq<map<string, int>>)
    requires forall i | 0 <= i < |ms| :: ms[i] == map[]
    ensures Union(ms) == map[]
  {
    if ms != [] {
      EmptyUnion(ms[..|ms| - 1]);
    }
  }

  // ---- the table ----------------------------------------------------------

  /** No node is in two chains. */
  ghost predicate Apart(cs: seq<Chain>)
    reads cs
  {
    && Distinct(cs)
    && forall i, j, n | 0 <= i < j < |cs| && n in cs[i].nodes :: n !in cs[j].nodes
  }

  ghost function NodesOf(cs: seq<Chain>): set<Node>
    reads cs
  {
    set i, k | 0 <= i < |cs| && 0 <= k < |cs[i].nodes| :: cs[i].nodes[k]
  }

  ghost function LocksOf(cs: seq<Chain>): seq<map<string, int>>
    reads cs
  {
    seq(|cs|, i reads cs requires 0 <= i < |cs| => cs[i].Locks())
  }

  ghost function RowsOf(cs: seq<Chain>): (rows: seq<Row>)
    reads cs
    ensures |rows| == |cs|
  {
    seq(|cs|, i reads cs requires 0 <= i < |cs| => cs[i].Contents())
  }

  class Table {
    const chains: seq<Chain>

    ghost predicate Valid()
      reads chains, NodesOf(chains)
    {
      && |chains| == UHASH_SIZE && Apart(chains) && Bucketed(LocksOf(chains))
      && forall i | 0 <= i < |chains| :: chains[i].Valid()
    }

    ghost function Locks(): map<string, int>
      reads chains
    {
      Union(LocksOf(chains))
    }

    /** The node is the k-th held lock in the chain of its user. */
    ghost predicate HeldAt(lock: Node, username: string, k: nat)
      requires |chains| == UHASH_SIZE
      reads chains
    {
      var c := chains[Bucket(username)];
      k < |c.entries| && k < |c.nodes| && c.entries[k].username == username && c.nodes[k] == lock
    }

    /** lock_init. */
    constructor ()
      ensures Valid() && Locks() == map[]
      ensures forall i | 0 <= i < UHASH_SIZE ::
        fresh(chains[i]) && fresh(chains[i].nodes) && chains[i].entries == [] && |chains[i].nodes| == 1
    {
      var cs := NewChains();
      AllEmpty(cs);
      chains := cs;
    }

    twostate predicate OthersUnchanged(b: nat)
      reads chains, NodesOf(chains)
    {
      forall i | 0 <= i < |chains| && i != b ::
        unchanged(chains[i]) && forall k | 0 <= k < |chains[i].nodes| :: unchanged(chains[i].nodes[k])
    }

    /** When one chain changed, the map changed at that chain's users alone. */
    twostate lemma OneMapChanged(b: nat)
      requires old(Valid()) && b < UHASH_SIZE && OthersUnchanged(b)
      ensures LocksOf(chains) == old(LocksOf(chains))[b := chains[b].Locks()]
    {
    }

    /** A chain that changed by itself leaves the table valid. */
    twostate lemma OneChainChanged(b: nat)
      requires old(Valid()) && b < UHASH_SIZE && chains[b].Valid() && OthersUnchanged(b)
      requires forall n | n in chains[b].nodes :: n in old(chains[b].nodes) || fresh(n)
      requires forall u | u in chains[b].Locks() :: Bucket(u) == b
      ensures Valid() && LocksOf(chains) == old(LocksOf(chains))[b := chains[b].Locks()]
    {
      OneMapChanged(b);
      OthersStayValid(b);
      ChainsStayApart(b);
      StaysBucketed(old(LocksOf(chains)), b, chains[b].Locks());
    }

    twostate lemma OneRowChanged(b: nat)
      requires old(Valid()) && b < UHASH_SIZE && OthersUnchanged(b)
      ensures RowsOf(chains) == old(RowsOf(chains))[b := RowsOf(chains)[b]]
    {
    }

    /** No chain has got a node that was there before, but not in the table. */
    twostate predicate NodesGrow()
      reads chains
    {
      forall n | n in NodesOf(chains) :: n in old(NodesOf(chains)) || fresh(n)
    }

    twostate lemma OnlyNewNodes(b: nat)
      requires old(Valid()) && b < UHASH_SIZE && OthersUnchanged(b)
      requires forall n | n in chains[b].nodes :: n in old(chains[b].nodes) || fresh(n)
      ensures NodesGrow()
    {
      forall i, k | 0 <= i < |chains| && 0 <= k < |chains[i].nodes|
        ensures chains[i].nodes[k] in old(NodesOf(chains)) || fresh(chains[i].nodes[k])
      {
        var n := chains[i].nodes[k];
        if i == b {
          assert n in chains[b].nodes;
        } else {
          assert n == old(chains[i].nodes)[k];
        }
      }
    }

    twostate lemma OthersStayValid(b: nat)
      requires old(Valid()) && b < UHASH_SIZE && OthersUnchanged(b)
      ensures forall i | 0 <= i < |chains| && i != b :: chains[i].Valid()
    {
      forall i | 0 <= i < |chains| && i != b ensures chains[i].Valid() {
        Untouched(chains[i]);
      }
    }

    twostate lemma ChainsStayApart(b: nat)
      requires old(Valid()) && b < UHASH_SIZE && OthersUnchanged(b)
      requires forall n | n in chains[b].nodes :: n in old(chains[b].nodes) || fresh(n)
      ensures Apart(chains)
    {
      forall i, j, n | 0 <= i < j < |chains| && n in chains[i].nodes
        ensures n !in chains[j].nodes
      {
        assert i != b ==> n in old(chains[i].nodes) && !fresh(n);
      }
    }

    /** lock_get: the lock of one user, in the chain of its bucket. */
    method Get(username: string, now: int) returns (lock: Node?, ghost k: nat)
      requires Valid()
      modifies chains[Bucket(username)], chains[Bucket(username)].nodes
      ensures Valid() && NodesGrow()
      ensures RowsOf(chains) == old(RowsOf(chains))[Bucket(username) := RowsOf(chains)[Bucket(username)]]
      ensures GetsTo(old(RowsOf(chains))[Bucket(username)], RowsOf(chains)[Bucket(username)], username, now, lock)
      ensures Locks() == Spec.Get(old(Locks()), username, now)
      ensures lock != null <==> Spec.Grants(old(Locks()), username, now)
      ensures lock != null ==> HeldAt(lock, username, k) && lock.username == Some(username)
    {
      ghost var bucket;
      GetOfOne(username, now);
      lock, k, bucket := GetIn(username, now);
      TableAfter(bucket);
    }

    lemma GetOfOne(username: string, now: int)
      requires Valid()
      ensures var ms, b := LocksOf(chains), Bucket(username);
        && Union(ms[b := Spec.Get(ms[b], username, now)]) == Spec.Get(Locks(), username, now)
        && (Spec.Grants(ms[b], username, now) <==> Spec.Grants(Locks(), username, now))
    {
      GetInBucket(LocksOf(chains), username, now);
    }

    /** A table after one of its chains changed by itself and stayed a chain. */
    twostate lemma TableAfter(b: nat)
      requires old(Valid()) && b < UHASH_SIZE && chains[b].Valid() && OthersUnchanged(b)
      requires forall n | n in chains[b].nodes :: n in old(chains[b].nodes) || fresh(n)
      requires forall u | u in chains[b].Locks() :: Bucket(u) == b
      ensures Valid() && LocksOf(chains) == old(LocksOf(chains))[b := chains[b].Locks()]
      ensures NodesGrow() && RowsOf(chains) == old(RowsOf(chains))[b := RowsOf(chains)[b]]
    {
      OneChainChanged(b);
      OnlyNewNodes(b);
      OneRowChanged(b);
    }

    method GetIn(username: string, now: int) returns (lock: Node?, ghost k: nat, ghost bucket: nat)
      requires Valid()
      modifies chains[Bucket(username)], chains[Bucket(username)].nodes
      ensures bucket == Bucket(username) && chains[bucket].Valid() && OthersUnchanged(bucket)
      ensures forall n | n in chains[bucket].nodes :: n in old(chains[bucket].nodes) || fresh(n)
      ensures forall u | u in chains[bucket].Locks() :: Bucket(u) == bucket
      ensures GetsTo(old(chains[bucket].Contents()), chains[bucket].Contents(), username, now, lock)
      ensures chains[bucket].Locks() == Spec.Get(old(chains[bucket].Locks()), username, now)
      ensures lock != null <==> Spec.Grants(old(chains[bucket].Locks()), username, now)
      ensures lock != null ==> HeldAt(lock, username, k) && lock.username == Some(username)
    {
      bucket := Bucket(username);
      StaysInBucket(username, now);
      ChainsApart(bucket);
      var b := Uhash(username);
      lock, k := chains[b].Get(username, now);
    }

    lemma StaysInBucket(username: string, now: int)
      requires Valid()
      ensures forall u | u in Spec.Get(chains[Bucket(username)].Locks(), username, now) :: Bucket(u) == Bucket(username)
    {
      UsersOfBucket(Bucket(username));
      GetKeepsBucket(chains[Bucket(username)].Locks(), Bucket(username), username, now);
    }

    lemma UsersOfBucket(b: nat)
      requires Valid() && b < UHASH_SIZE
      ensures forall u | u in chains[b].Locks() :: Bucket(u) == b
    {
      assert LocksOf(chains)[b] == chains[b].Locks();
    }

    lemma ChainsApart(b: nat)
      requires Valid() && b < UHASH_SIZE
      ensures forall i, k | 0 <= i < |chains| && 0 <= k < |chains[i].nodes| && i != b :: chains[i].nodes[k] !in chains[b].nodes
    {
    }

    /** lock_put: the fault and the loss of shape are those of one chain. */
    method Put(lock: Node, ghost username: string, ghost k: nat) returns (fault: bool)
      requires Valid() && HeldAt(lock, username, k)
      modifies chains[Bucket(username)], chains[Bucket(username)].nodes
      ensures NodesGrow()
      ensures RowsOf(chains) == old(RowsOf(chains))[Bucket(username) := RowsOf(chains)[Bucket(username)]]
      ensures fault <==> Faults(old(RowsOf(chains))[Bucket(username)], k)
      ensures !fault ==> CanPut(old(RowsOf(chains))[Bucket(username)], RowsOf(chains)[Bucket(username)], k)
      ensures !fault ==> Locks() == Spec.Put(old(Locks()), username)
      ensures !fault ==> (Valid() <==> KeepsShape(old(RowsOf(chains))[Bucket(username)], k))
    {
      PutInBucket(LocksOf(chains), username);
      ghost var bucket;
      fault, bucket := PutIn(lock, username, k);
      OnlyNewNodes(bucket);
      OneRowChanged(bucket);
      if !fault {
        OneMapChanged(bucket);
        if chains[bucket].Valid() {
          OneChainChanged(bucket);
        }
      }
    }

    method PutIn(lock: Node, ghost username: string, ghost k: nat) returns (fault: bool, ghost bucket: nat)
      requires Valid() && HeldAt(lock, username, k)
      modifies chains[Bucket(username)], chains[Bucket(username)].nodes
      ensures bucket == Bucket(username) && OthersUnchanged(bucket)
      ensures forall n | n in chains[bucket].nodes :: n in old(chains[bucket].nodes)
      ensures fault <==> Faults(old(chains[bucket].Contents()), k)
      ensures !fault ==> CanPut(old(chains[bucket].Contents()), chains[bucket].Contents(), k)
      ensures !fault ==> chains[bucket].Locks() == Spec.Put(old(chains[bucket].Locks()), username)
      ensures !fault ==> (chains[bucket].Valid() <==> KeepsShape(old(chains[bucket].Contents()), k))
    {
      assert lock.username == Some(username);
      var b := Uhash(lock.username.value);
      bucket := b;
      ChainsApart(b);
      fault := chains[b].Put(lock, k);
    }
  }

  ghost predicate CanPut(was: Row, row: Row, k: nat) {
    k < |was.entries| <= |was.nodes| && PutsTo(was, row, k)
  }

  /** Changing one chain leaves a chain with other nodes alone. */
  twostate lemma Untouched(d: Chain)
    requires old(d.Valid()) && unchanged(d) && forall k | 0 <= k < |d.nodes| :: unchanged(d.nodes[k])
    ensures d.Valid()
  {
  }

  method NewChains() returns (cs: seq<Chain>)
    ensures |cs| == UHASH_SIZE && Apart(cs)
    ensures forall i | 0 <= i < |cs| ::
      fresh(cs[i]) && fresh(cs[i].nodes) && cs[i].Valid() && cs[i].entries == [] && |cs[i].nodes| == 1
  {
    cs := [];
    while |cs| < UHASH_SIZE
      invariant |cs| <= UHASH_SIZE && Apart(cs)
      invariant forall i | 0 <= i < |cs| ::
        fresh(cs[i]) && fresh(cs[i].nodes) && cs[i].Valid() && cs[i].entries == [] && |cs[i].nodes| == 1
    {
      var c := new Chain();
      OneMore(cs, c);
      cs := cs + [c];
    }
  }

  lemma AllEmpty(cs: seq<Chain>)
    requires |cs| == UHASH_SIZE && forall i | 0 <= i < |cs| :: cs[i].entries == []
    ensures Bucketed(LocksOf(cs)) && Union(LocksOf(cs)) == map[]
  {
    EmptyUnion(LocksOf(cs));
  }

  lemma OneMore(cs: seq<Chain>, c: Chain)
    requires Apart(cs) && forall i | 0 <= i < |cs| :: cs[i] != c && forall n | n in cs[i].nodes :: n !in c.nodes
    ensures Apart(cs + [c])
  {
  }
}
