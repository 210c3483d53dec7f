/** One hash chain of lock.c: a doubly linked list whose first nodes, up to last, are the held
    locks, and whose other nodes wait to be used again. */
module Lock {
  import opened Bytes
  import opened Sequences
  import Spec = LockSpec

  class Node {
    var username: Option<string>
    var ltime: int
    var prev: Node?
    var next: Node?

    /** lock_alloc; the caller sets prev. */
    constructor ()
      ensures username == None && next == null
    {
      username, ltime, prev, next := None, 0, null, null;
    }
  }

  // ---- shapes -------------------------------------------------------------

  /** ns is the whole of an acyclic doubly linked list. */
  ghost predicate Linked(ns: seq<Node>)
    reads ns`prev, ns`next
  {
    && Distinct(ns)
    && (ns != [] ==> ns[0].prev == null && ns[|ns| - 1].next == null)
    && (forall i {:trigger ns[i].prev} | 1 <= i < |ns| :: ns[i].prev == ns[i - 1])
    && (forall i {:trigger ns[i].next} | 0 <= i < |ns| - 1 :: ns[i].next == ns[i + 1])
  }

  /** The first nodes carry the entries, the others no user. */
  ghost predicate Carries(ns: seq<Node>, es: seq<Spec.Entry>)
    reads ns`username, ns`ltime
  {
    && |es| <= |ns|
    && (forall i {:trigger ns[i]} | 0 <= i < |es| :: ns[i].username == Some(es[i].username) && ns[i].ltime == es[i].since)
    && (forall i {:trigger ns[i]} | |es| <= i < |ns| :: ns[i].username.None?)
  }

  // ---- relinking ----------------------------------------------------------

  ghost function Insert<T>(s: seq<T>, k: nat, x: T): seq<T>
    requires k <= |s|
  {
    seq(|s| + 1, i requires 0 <= i <= |s| => if i < k then s[i] else if i == k then x else s[i - 1])
  }

  /** Take a node out of its list. */
  method Unlink(node: Node, ghost ns: seq<Node>, ghost k: nat)
    requires Linked(ns) && k < |ns| && ns[k] == node
    modifies ns`prev, ns`next
    ensures Linked(Remove(ns, k))
  {
    if node.prev != null {
      node.prev.next := node.next;
    }
    if node.next != null {
      node.next.prev := node.prev;
    }
  }

  /** Link a loose node between two neighbours. */
  method LinkAfter(node: Node, last: Node, ghost ns: seq<Node>, ghost k: nat)
    requires Linked(ns) && k + 1 < |ns| && ns[k] == last && node !in ns
    modifies node`prev, node`next, ns`prev, ns`next
    ensures Linked(Insert(ns, k + 1, node))
    ensures node.prev == last
  {
    assert last.next == ns[k + 1];
    node.next := last.next;
    node.prev := last;
    last.next.prev := node;
    last.next := node;
  }

  /** Unlink a node and link it again behind last. */
  method Requeue(node: Node, last: Node, ghost ns: seq<Node>, ghost k: nat, ghost h: nat)
    requires Linked(ns) && k < h < |ns| - 1 && ns[k] == node && ns[h] == last
    modifies ns`prev, ns`next
    ensures Linked(Moved(ns, k, h))
  {
    LastIsElsewhere(ns, k, h);
    ghost var rest := Remove(ns, k);
    Unlink(node, ns, k);
    LinkAfter(node, last, rest, h - 1);
    InsertAfterRemove(ns, k, h);
  }

  lemma InsertAfterRemove<T>(s: seq<T>, k: nat, h: nat)
    requires k < h < |s|
    ensures Insert(Remove(s, k), h, s[k]) == Moved(s, k, h)
  {
  }

  /** The part of lock_put for a lock that is not last. */
  method ReleaseInner(node: Node, last: Node, ghost ns: seq<Node>, ghost es: seq<Spec.Entry>, ghost k: nat)
    requires Linked(ns) && Carries(ns, es) && k < |es| - 1 < |ns| - 1 && ns[k] == node && ns[|es| - 1] == last
    modifies node`username, ns`prev, ns`next
    ensures Linked(Moved(ns, k, |es| - 1)) && Carries(Moved(ns, k, |es| - 1), Remove(es, k))
  {
    assert forall i | 0 <= i < |ns| && i != k :: ns[i] != node;
    node.username := None;
    CarriesAfterMove(ns, es, k);
    Requeue(node, last, ns, k, |es| - 1);
  }

  // ---- the chain ----------------------------------------------------------

  /** The held locks and the nodes of a chain. */
  datatype Row = Row(entries: seq<Spec.Entry>, nodes: seq<Node>)

  predicate Has(es: seq<Spec.Entry>, username: string) {
    exists i :: 0 <= i < |es| && es[i].username == username
  }

  /** What lock_get does to a chain: a node is made only when all are held, and a new lock is the
      last one. */
  ghost predicate GetsTo(was: Row, row: Row, username: string, now: int, lock: Node?) {
    && was.nodes <= row.nodes
    && |row.nodes| == |was.nodes| + (if |was.entries| == |was.nodes| && !Has(was.entries, username) then 1 else 0)
    && (lock == null ==> row.entries == was.entries)
    && (lock != null && !Has(was.entries, username) ==>
          && row.entries == was.entries + [Spec.Entry(username, now)]
          && |was.entries| < |row.nodes| && row.nodes[|was.entries|] == lock)
  }

  /** lock_put of the k-th lock follows a null pointer. */
  predicate Faults(was: Row, k: nat) {
    k < |was.entries| - 1 && |was.entries| == |was.nodes|
  }

  /** lock_put of the k-th lock, if it does not fault, leaves a chain. */
  predicate KeepsShape(was: Row, k: nat) {
    k == |was.entries| - 1 || k > 0
  }

  /** What lock_put does to a chain. */
  ghost predicate PutsTo(was: Row, row: Row, k: nat)
    requires k < |was.entries| <= |was.nodes|
  {
    && row.entries == Remove(was.entries, k)
    && row.nodes == if k == |was.entries| - 1 then was.nodes else Moved(was.nodes, k, |was.entries| - 1)
  }

  class Chain {
    var first: Node
    var last: Node?
    ghost var nodes: seq<Node>
    ghost var entries: seq<Spec.Entry>

    /** The list from first is nodes; the prefix that ends at last is the held locks. */
    ghost predicate Valid()
      reads this, nodes
    {
      && nodes != [] && first == nodes[0] && Linked(nodes)
      && Carries(nodes, entries) && Spec.DifferentUsers(entries)
      && last == (if entries == [] then null else nodes[|entries| - 1])
    }

    /** The map from user name to grant time that the chain stands for. */
    ghost function Locks(): map<string, int>
      reads this
    {
      Spec.AsMap(entries)
    }

    ghost function Contents(): Row
      reads this
    {
      Row(entries, nodes)
    }

    /** lock_init, for one chain: a preallocated node and no held lock. */
    constructor ()
      ensures Valid() && fresh(nodes) && |nodes| == 1 && entries == [] && Locks() == map[]
    {
      var node := new Node();
      node.prev := null;
      first, last := node, null;
      nodes, entries := [node], [];
    }

    /** find_lock: the held node of a user, or else the node to use next, if there is one. */
    method FindLock(username: string) returns (found: bool, lock: Node?, ghost k: nat)
      requires Valid()
      ensures found <==> username in Locks()
      ensures found ==> k < |entries| && entries[k].username == username && lock == nodes[k]
      ensures !found ==> k == |entries| && lock == (if k < |nodes| then nodes[k] else null)
    {
      Spec.InMap(entries, username);
      if last == null {
        return false, first, 0;
      }
      lock, k := first, 0;
      while lock != last
        invariant k < |entries| && lock == nodes[k]
        invariant forall i | 0 <= i < k :: entries[i].username != username
        decreases |entries| - k
      {
        if lock.username == Some(username) {
          return true, lock, k;
        }
        lock, k := lock.next, k + 1;
      }
      assert k == |entries| - 1;
      if lock.username == Some(username) {
        return true, lock, k;
      }
      return false, lock.next, |entries|;
    }

    /** Relock the expired lock at position k. */
    method Renew(node: Node, now: int, ghost k: nat)
      requires Valid() && k < |entries| && nodes[k] == node
      modifies `entries, node`ltime
      ensures Valid() && entries == old(entries)[k := Spec.Entry(old(entries)[k].username, now)]
      ensures Locks() == old(Locks())[entries[k].username := now]
    {
      Spec.MapOfUpdate(entries, k, now);
      node.ltime := now;
      entries := entries[k := Spec.Entry(entries[k].username, now)];
    }

    /** Allocate a node when every node is held. */
    method Extend() returns (node: Node)
      requires Valid() && |entries| == |nodes|
      modifies `nodes, last`next
      ensures Valid() && nodes == old(nodes) + [node] && fresh(node)
    {
      node := new Node();
      assert last == nodes[|nodes| - 1];
      last.next := node;
      node.prev := last;
      nodes := nodes + [node];
    }

    /** Lock the first node that is not held. */
    method Take(node: Node, username: string, now: int)
      requires Valid() && |entries| < |nodes| && nodes[|entries|] == node && username !in Locks()
      modifies `last, `entries, node`username, node`ltime
      ensures Valid() && entries == old(entries) + [Spec.Entry(username, now)]
      ensures Locks() == old(Locks())[username := now]
    {
      Spec.InMap(entries, username);
      Spec.MapOfAppend(entries, Spec.Entry(username, now));
      node.username := Some(username);
      node.ltime := now;
      last := node;
      entries := entries + [Spec.Entry(username, now)];
    }

    /** lock_get. */
    method Get(username: string, now: int) returns (lock: Node?, ghost k: nat)
      requires Valid()
      modifies this, nodes
      ensures Valid()
      ensures forall n | n in nodes && n !in old(nodes) :: fresh(n)
      ensures Locks() == Spec.Get(old(Locks()), username, now)
      ensures lock != null <==> Spec.Grants(old(Locks()), username, now)
      ensures lock != null ==> k < |entries| && entries[k] == Spec.Entry(username, now) && lock == nodes[k]
      ensures GetsTo(old(Contents()), Contents(), username, now, lock)
    {
      Spec.InMap(entries, username);
      var found, node;
      found, node, k := FindLock(username);
      if found {
        lock := Relock(node, username, now, k);
      } else {
        lock := LockFree(node, username, now);
      }
    }

    /** The lock is held: it is granted again if it has expired. */
    method Relock(node: Node, username: string, now: int, ghost k: nat) returns (lock: Node?)
      requires Valid() && k < |entries| && nodes[k] == node && entries[k].username == username
      modifies `entries, node`ltime
      ensures Valid() && Locks() == Spec.Get(old(Locks()), username, now)
      ensures lock != null <==> Spec.Grants(old(Locks()), username, now)
      ensures lock != null ==> entries == old(entries)[k := Spec.Entry(username, now)] && lock == node
      ensures lock == null ==> entries == old(entries)
      ensures GetsTo(old(Contents()), Contents(), username, now, lock)
    {
      Spec.MapAt(entries, k);
      lock := null;
      if now >= node.ltime + Spec.EXPIRY {
        Renew(node, now, k);
        lock := node;
      }
    }

    /** The user holds no lock: the free node, or a new one, is locked. */
    method LockFree(node: Node?, username: string, now: int) returns (lock: Node)
      requires Valid() && username !in Locks()
      requires node == if |entries| < |nodes| then nodes[|entries|] else null
      modifies this, nodes
      ensures Valid() && Locks() == old(Locks())[username := now]
      ensures entries == old(entries) + [Spec.Entry(username, now)] && lock == nodes[|old(entries)|]
      ensures if node == null then nodes == old(nodes) + [lock] && fresh(lock) else nodes == old(nodes)
      ensures GetsTo(old(Contents()), Contents(), username, now, lock)
    {
      if node == null {
        lock := Extend();
      } else {
        lock := node;
      }
      Take(lock, username, now);
    }

    /** lock_put. It follows a null pointer, and the process ends, exactly when the lock is not
        last and last has no successor, that is when every node of the chain is held.
        Otherwise the map loses one user, and the chain stays a chain exactly when the lock is
        last or has a predecessor; if not, first is left on the node that was moved behind
        last, and no list of nodes is a chain from there. */
    method Put(lock: Node, ghost k: nat) returns (fault: bool)
      requires Valid() && k < |entries| && nodes[k] == lock
      modifies this, nodes
      ensures fault <==> lock != old(last) && old(last.next) == null
      ensures fault <==> Faults(old(Contents()), k)
      ensures |old(entries)| <= |old(nodes)| && (!fault ==> PutsTo(old(Contents()), Contents(), k))
      ensures !fault ==> Locks() == Spec.Put(old(Locks()), old(entries)[k].username)
      ensures |nodes| == |old(nodes)| && forall n | n in nodes :: n in old(nodes)
      ensures !fault ==> (Valid() <==> lock == old(last) || old(lock.prev) != null)
      ensures !fault ==> (Valid() <==> KeepsShape(old(Contents()), k))
      ensures !fault && !Valid() ==> first == lock && first.prev != null
      ensures !fault && !Valid() ==> forall ns: seq<Node> :: !(ns != [] && first == ns[0] && Linked(ns))
      ensures lock == old(last) ==> nodes == old(nodes)
    {
      PredecessorOf(nodes, k);
      Positions(k);
      fault := false;
      if last == lock {
        PutLast(lock, k);
      } else if last.next == null {
        fault := true;
      } else {
        PutElsewhere(lock, k);
        if k == 0 {
          ChainLost(first);
        }
      }
    }

    /** last, and whether it has a successor, in terms of positions. */
    lemma Positions(k: nat)
      requires Valid() && k < |entries|
      ensures nodes[k] == last <==> k == |entries| - 1
      ensures last.next == null <==> |entries| == |nodes|
    {
    }

    /** lock_put of a lock that is not last: all is well but for first. */
    method PutElsewhere(lock: Node, ghost k: nat)
      requires Valid() && k < |entries| && nodes[k] == lock != last && last.next != null
      modifies `nodes, `entries, nodes`prev, nodes`next, lock`username
      ensures entries == Remove(old(entries), k) && nodes == Moved(old(nodes), k, |entries|)
      ensures Locks() == Spec.Put(old(Locks()), old(entries)[k].username)
      ensures |nodes| == |old(nodes)| && forall n | n in nodes :: n in old(nodes)
      ensures Valid() <==> k > 0
      ensures k == 0 ==> first == lock && first.prev == last
    {
      Positions(k);
      AfterMove(nodes, entries, k);
      PutInner(lock, k);
      PredecessorOf(nodes, |entries|);
    }

    method PutLast(lock: Node, ghost k: nat)
      requires Valid() && k == |entries| - 1 && nodes[k] == lock
      modifies `last, `entries, lock`username
      ensures Valid() && entries == Remove(old(entries), k)
      ensures Locks() == Spec.Put(old(Locks()), old(entries)[k].username)
    {
      AfterRelease(entries, k);
      PredecessorOf(nodes, k);
      lock.username := None;
      last := lock.prev;
      entries := Remove(entries, k);
    }

    method PutInner(lock: Node, ghost k: nat)
      requires Valid() && k < |entries| - 1 < |nodes| - 1 && nodes[k] == lock
      modifies `nodes, `entries, nodes`prev, nodes`next, lock`username
      ensures entries == Remove(old(entries), k)
      ensures nodes == Moved(old(nodes), k, |entries|)
      ensures Linked(nodes) && Carries(nodes, entries)
    {
      ghost var ns, es := Moved(nodes, k, |entries| - 1), Remove(entries, k);
      ReleaseInner(lock, last, nodes, entries, k);
      nodes, entries := ns, es;
    }
  }

  /** s with the element at k moved to h. */
  ghost function Moved<T>(s: seq<T>, k: nat, h: nat): (r: seq<T>)
    requires k <= h < |s|
  {
    seq(|s|, i requires 0 <= i < |s| => if i < k || i > h then s[i] else if i < h then s[i + 1] else s[k])
  }

  lemma AfterRelease(es: seq<Spec.Entry>, k: nat)
    requires Spec.DifferentUsers(es) && k < |es|
    ensures Spec.DifferentUsers(Remove(es, k)) && Spec.AsMap(Remove(es, k)) == Spec.Put(Spec.AsMap(es), es[k].username)
  {
    Spec.MapOfRemove(es, k);
    RemoveKeepsUsersDifferent(es, k);
  }

  /** What moving the node at k behind the last held one does to nodes and entries. */
  lemma AfterMove(ns: seq<Node>, es: seq<Spec.Entry>, k: nat)
    requires Spec.DifferentUsers(es) && k < |es| - 1 < |ns| - 1
    ensures var ns', es' := Moved(ns, k, |es| - 1), Remove(es, k);
      && Spec.DifferentUsers(es') && Spec.AsMap(es') == Spec.Put(Spec.AsMap(es), es[k].username)
      && (forall n | n in ns' :: n in ns)
      && ns'[|es'| - 1] == ns[|es| - 1] && ns'[if k == 0 then |es'| else 0] == ns[0]
  {
    AfterRelease(es, k);
  }

  lemma RemoveKeepsUsersDifferent(es: seq<Spec.Entry>, k: nat)
    requires Spec.DifferentUsers(es) && k < |es|
    ensures Spec.DifferentUsers(Remove(es, k))
  {
  }

  lemma PredecessorOf(ns: seq<Node>, k: nat)
    requires Linked(ns) && k < |ns|
    ensures ns[k].prev == if k == 0 then null else ns[k - 1]
  {
  }

  lemma LastIsElsewhere(ns: seq<Node>, k: nat, h: nat)
    requires Linked(ns) && k < |ns| && h < |ns| && ns[k] != ns[h] && ns[h].next != null && k <= h
    ensures k < h < |ns| - 1 && Remove(ns, k)[h - 1] == ns[h] && ns[k] !in Remove(ns, k)
  {
  }

  lemma CarriesAfterMove(ns: seq<Node>, es: seq<Spec.Entry>, k: nat)
    requires k < |es| <= |ns| && ns[k].username.None?
    requires forall i {:trigger ns[i]} | 0 <= i < |es| && i != k :: ns[i].username == Some(es[i].username) && ns[i].ltime == es[i].since
    requires forall i {:trigger ns[i]} | |es| <= i < |ns| :: ns[i].username.None?
    ensures Carries(Moved(ns, k, |es| - 1), Remove(es, k))
  {
  }

  /** No list of nodes makes a chain out of a first node with a predecessor. */
  lemma ChainLost(first: Node)
    requires first.prev != null
    ensures forall ns: seq<Node> :: !(ns != [] && first == ns[0] && Linked(ns))
  {
  }

  /** From lock_init, any three users of one chain lock, the third releases and then the first:
      the chain is no chain any more. */
  method ReleaseFirst(u: string, v: string, w: string, now: int) returns (c: Chain)
    requires u != v && v != w && u != w
    ensures c.Locks() == map[v := now]
    ensures forall ns: seq<Node> :: !(ns != [] && c.first == ns[0] && Linked(ns))
  {
    var a, lock;
    c, a, lock := GetThree(u, v, w, now);
    var fault := c.Put(lock, 2);
    fault := c.Put(a, 0);
    Spec.MapOfAppend([], Spec.Entry(v, now));
    assert c.entries == [] + [Spec.Entry(v, now)];
  }

  /** From lock_init, any two users of one chain lock and the first to lock releases first:
      lock_put follows a null pointer. */
  method ReleaseEarly(u: string, v: string, now: int) returns (c: Chain, a: Node, fault: bool)
    requires u != v
    ensures fault
  {
    c, a := GetTwo(u, v, now);
    fault := c.Put(a, 0);
  }

  method GetThree(u: string, v: string, w: string, now: int) returns (c: Chain, a: Node, lock: Node)
    requires u != v && v != w && u != w
    ensures c.Valid() && fresh(c) && fresh(c.nodes) && |c.nodes| == 3 && a == c.nodes[0]
    ensures c.entries == [Spec.Entry(u, now), Spec.Entry(v, now), Spec.Entry(w, now)] && lock == c.nodes[2] == c.last
  {
    c, a := GetTwo(u, v, now);
    lock := GetNew(c, w, now);
  }

  method GetTwo(u: string, v: string, now: int) returns (c: Chain, a: Node)
    requires u != v
    ensures c.Valid() && fresh(c) && fresh(c.nodes) && |c.nodes| == 2
    ensures a == c.nodes[0] && a != c.last && c.last != null && c.last.next == null
    ensures c.entries == [Spec.Entry(u, now), Spec.Entry(v, now)]
  {
    c, a := GetOne(u, now);
    var _ := GetNew(c, v, now);
  }

  method GetOne(u: string, now: int) returns (c: Chain, a: Node)
    ensures c.Valid() && fresh(c) && fresh(c.nodes) && |c.nodes| == 1 && a == c.nodes[0]
    ensures c.entries == [Spec.Entry(u, now)]
  {
    c := new Chain();
    a := GetNew(c, u, now);
  }

  method GetNew(c: Chain, username: string, now: int) returns (lock: Node)
    requires c.Valid() && forall e | e in c.entries :: e.username != username
    modifies c, c.nodes
    ensures c.Valid() && fresh(set n | n in c.nodes && n !in old(c.nodes)) && old(c.nodes) <= c.nodes
    ensures c.entries == old(c.entries) + [Spec.Entry(username, now)] && lock == c.nodes[|old(c.entries)|]
    ensures |c.nodes| == |old(c.nodes)| + if |old(c.entries)| == |old(c.nodes)| then 1 else 0
  {
    Spec.InMap(c.entries, username);
    var l, k := c.Get(username, now);
    SameUserSameEntry(c.entries, k, |c.entries| - 1);
    lock := l;
  }

  lemma SameUserSameEntry(es: seq<Spec.Entry>, i: nat, j: nat)
    requires Spec.DifferentUsers(es) && i < |es| && j < |es|
    ensures es[i] == es[j] ==> i == j
  {
  }
}
