/** What the lock table of lock.c means to its callers: which user names are locked, and since
    when. */
module LockSpec {
  import opened Sequences

  /** A lock can be taken over 24 s after it was granted, in nanoseconds. */
  const EXPIRY: int := 24_000_000_000

  predicate Grants(locks: map<string, int>, username: string, now: int) {
    username in locks ==> now >= locks[username] + EXPIRY
  }

  function Get(locks: map<string, int>, username: string, now: int): map<string, int> {
    if Grants(locks, username, now) then locks[username := now] else locks
  }

  function Put(locks: map<string, int>, username: string): map<string, int> {
    locks - {username}
  }

  /** A lock that is granted is refused to everyone until it is given back or 24 s have passed, and
      nobody else's lock is touched. */
  lemma HeldFor(locks: map<string, int>, u: string, since: int, v: string, now: int)
    requires Grants(locks, u, since)
    ensures var held := Get(locks, u, since);
      && (Grants(held, u, now) <==> now >= since + 24 * 1_000_000_000)
      && Grants(Put(held, u), u, now)
      && (!Grants(held, u, now) ==> Get(held, u, now) == held)
      && (v != u ==> (Grants(held, v, now) <==> Grants(locks, v, now)) && (Grants(Put(held, u), v, now) <==> Grants(locks, v, now)))
  {
  }

  // ---- a list of locks as a map -------------------------------------------

  datatype Entry = Entry(username: string, since: int)

  ghost predicate DifferentUsers(es: seq<Entry>) {
    forall i, j | 0 <= i < j < |es| :: es[i].username != es[j].username
  }

  function AsMap(es: seq<Entry>): map<string, int> {
    if es == [] then map[] else AsMap(es[..|es| - 1])[es[|es| - 1].username := es[|es| - 1].since]
  }

  lemma {:induction false} InMap(es: seq<Entry>, username: string)
    ensures username in AsMap(es) <==> exists i :: 0 <= i < |es| && es[i].username == username
  {
    if es != [] {
      var front := es[..|es| - 1];
      InMap(front, username);
      if i :| 0 <= i < |es| && es[i].username == username {
        assert i < |front| ==> front[i].username == username;
      }
    }
  }

  lemma {:induction false} MapAt(es: seq<Entry>, i: nat)
    requires DifferentUsers(es) && i < |es|
    ensures es[i].username in AsMap(es) && AsMap(es)[es[i].username] == es[i].since
  {
    if i < |es| - 1 {
      MapAt(es[..|es| - 1], i);
    }
  }

  lemma MapOfAppend(es: seq<Entry>, e: Entry)
    ensures AsMap(es + [e]) == AsMap(es)[e.username := e.since]
  {
    assert (es + [e])[..|es|] == es;
  }

  lemma {:induction false} MapOfUpdate(es: seq<Entry>, k: nat, now: int)
    requires DifferentUsers(es) && k < |es|
    ensures AsMap(es[k := Entry(es[k].username, now)]) == AsMap(es)[es[k].username := now]
  {
    var n := |es| - 1;
    var es' := es[k := Entry(es[k].username, now)];
    if k < n {
      MapOfUpdate(es[..n], k, now);
      assert es'[..n] == es[..n][k := Entry(es[k].username, now)];
    } else {
      assert es'[..n] == es[..n];
    }
  }

  lemma {:induction false} MapOfRemove(es: seq<Entry>, k: nat)
    requires DifferentUsers(es) && k < |es|
    ensures AsMap(Remove(es, k)) == Put(AsMap(es), es[k].username)
  {
    var n := |es| - 1;
    var front, r := es[..n], Remove(es, k);
    if k < n {
      MapOfRemove(front, k);
      assert r[..n - 1] == Remove(front, k) && r[n - 1] == es[n];
      RemoveOther(AsMap(front), es[k].username, es[n].username, es[n].since);
    } else {
      InMap(front, es[n].username);
      assert r == front;
    }
  }

  lemma RemoveOther(m: map<string, int>, a: string, b: string, t: int)
    requires a != b
    ensures Put(m[b := t], a) == Put(m, a)[b := t]
  {
  }
}
