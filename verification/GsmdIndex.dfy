/** gsmd.c: the state managers by name, in 64 chains, and a walk over all of them that keeps its
    place in a static variable. */
module GsmdIndex {
  import opened Sequences
  import opened Names = Uhash

  class Gsmd {
    const name: string
    var next: Gsmd?

    constructor (name: string)
      ensures this.name == name
    {
      this.name, next := name, null;
    }
  }

  // ---- the simple list ----------------------------------------------------

  /** The entry of that name that was hashed last. */
  function Latest(hashed: seq<Gsmd>, name: string): Gsmd? {
    if hashed == [] then null
    else
      var g := hashed[|hashed| - 1];
      if g.name == name then g else Latest(hashed[..|hashed| - 1], name)
  }

  /** A hash function; the index uses Bucket. */
  type Hash = string -> nat

  /** The entries of one bucket, the newest first. */
  function InBucket(h: Hash, hashed: seq<Gsmd>, b: nat): seq<Gsmd> {
    if hashed == [] then []
    else
      var front, g := hashed[..|hashed| - 1], hashed[|hashed| - 1];
      if h(g.name) == b then [g] + InBucket(h, front, b) else InBucket(h, front, b)
  }

  /** The entries of the buckets from b on, bucket after bucket. */
  function From(h: Hash, hashed: seq<Gsmd>, b: nat, size: nat): seq<Gsmd>
    requires b <= size
    decreases size - b
  {
    if b == size then [] else InBucket(h, hashed, b) + From(h, hashed, b + 1, size)
  }

  lemma InBucketAppend(h: Hash, hashed: seq<Gsmd>, g: Gsmd, b: nat)
    ensures InBucket(h, hashed + [g], b) == if h(g.name) == b then [g] + InBucket(h, hashed, b) else InBucket(h, hashed, b)
  {
    assert (hashed + [g])[..|hashed|] == hashed;
  }

  /** The first of that name in a chain. */
  function FirstNamed(chain: seq<Gsmd>, name: string): Gsmd? {
    if chain == [] then null else if chain[0].name == name then chain[0] else FirstNamed(chain[1..], name)
  }

  /** Looking in one bucket is looking everywhere. */
  lemma {:induction false} BucketHasLatest(h: Hash, hashed: seq<Gsmd>, name: string)
    ensures FirstNamed(InBucket(h, hashed, h(name)), name) == Latest(hashed, name)
  {
    if hashed != [] {
      var front, g := hashed[..|hashed| - 1], hashed[|hashed| - 1];
      BucketHasLatest(h, front, name);
      if h(g.name) == h(name) {
        assert InBucket(h, hashed, h(name))[1..] == InBucket(h, front, h(name));
      }
    }
  }

  lemma {:induction false} FromAppend(h: Hash, hashed: seq<Gsmd>, g: Gsmd, b: nat, size: nat)
    requires b <= size
    ensures multiset(From(h, hashed + [g], b, size)) ==
      multiset(From(h, hashed, b, size)) + if b <= h(g.name) < size then multiset{g} else multiset{}
    decreases size - b
  {
    if b < size {
      InBucketAppend(h, hashed, g, b);
      FromAppend(h, hashed, g, b + 1, size);
      var a, a' := InBucket(h, hashed, b), InBucket(h, hashed + [g], b);
      var c, c' := From(h, hashed, b + 1, size), From(h, hashed + [g], b + 1, size);
      CountsAdd(a, c);
      CountsAdd(a', c');
      CountsAdd([g], a);
    }
  }

  lemma CountsAdd(s: seq<Gsmd>, t: seq<Gsmd>)
    ensures multiset(s + t) == multiset(s) + multiset(t)
  {
  }

  lemma {:induction false} FromNothing(h: Hash, b: nat, size: nat)
    requires b <= size
    ensures From(h, [], b, size) == []
    decreases size - b
  {
    if b < size {
      FromNothing(h, b + 1, size);
    }
  }

  /** All buckets together hold each hashed entry exactly once. */
  lemma {:induction false} FromIsPermutation(h: Hash, hashed: seq<Gsmd>, size: nat)
    requires forall g | g in hashed :: h(g.name) < size
    ensures multiset(From(h, hashed, 0, size)) == multiset(hashed)
  {
    if hashed == [] {
      FromNothing(h, 0, size);
    } else {
      var front, g := hashed[..|hashed| - 1], hashed[|hashed| - 1];
      FromIsPermutation(h, front, size);
      assert front + [g] == hashed;
      FromAppend(h, front, g, 0, size);
    }
  }

  // ---- the index ----------------------------------------------------------

  class Index {
    const chain: array<Gsmd?>
    var i: nat
    ghost const h: Hash
    ghost var hashed: seq<Gsmd>

    /** Each chain links the entries of its bucket, the newest first. */
    ghost predicate Valid()
      reads `hashed, chain, hashed
    {
      && chain.Length == UHASH_SIZE && Distinct(hashed) && AllLink(h, chain[..], hashed)
      && forall name {:trigger Bucket(name)} :: h(name) == Bucket(name)
    }

    constructor ()
      ensures Valid() && hashed == [] && fresh(chain)
    {
      chain := new Gsmd?[UHASH_SIZE](_ => null);
      i, h, hashed := 0, Bucket, [];
    }

    /** gsmd_hash. */
    method GsmdHash(gsmd: Gsmd)
      requires Valid() && gsmd !in hashed
      modifies chain, gsmd`next, `hashed
      ensures Valid() && hashed == old(hashed) + [gsmd]
    {
      var bucket := Uhash(gsmd.name);
      ghost var was, heads := hashed, chain[..];
      assert AllLink(h, heads, was);
      var next := chain[bucket];
      chain[bucket] := gsmd;
      gsmd.next := next;
      assert AllLink(h, heads, was);
      LinksPushed(h, heads, was, gsmd, bucket);
      assert chain[..] == heads[bucket := gsmd];
      hashed := was + [gsmd];
    }

    /** gsmd_get. */
    method GsmdGet(name: string) returns (gsmd: Gsmd?)
      requires Valid()
      ensures gsmd == Latest(hashed, name)
    {
      var bucket := Uhash(name);
      BucketHasLatest(h, hashed, name);
      ghost var c := InBucket(h, hashed, bucket);
      ghost var k := 0;
      assert c[0..] == c;
      gsmd := chain[bucket];
      while gsmd != null
        invariant 0 <= k <= |c| && gsmd == if k < |c| then c[k] else null
        invariant FirstNamed(c[k..], name) == FirstNamed(c, name)
        decreases |c| - k
      {
        if gsmd.name == name {
          break;
        }
        assert c[k..][1..] == c[k + 1..];
        assert Links(chain[bucket], c, hashed);
        assert c[k].next == if k + 1 < |c| then c[k + 1] else null;
        gsmd := gsmd.next;
        k := k + 1;
      }
    }

    /** The order of the walk. */
    ghost function Order(): seq<Gsmd>
      reads `hashed
    {
      From(h, hashed, 0, chain.Length)
    }

    /** The entries that are still to come, gsmd being the first, are rest; gsmd is at position
        k of bucket i. */
    ghost predicate Ahead(gsmd: Gsmd?, k: nat, rest: seq<Gsmd>)
      reads this
    {
      if gsmd == null then rest == []
      else
        i < chain.Length &&
        var c := InBucket(h, hashed, i);
        k < |c| && c[k] == gsmd && rest == c[k..] + From(h, hashed, i + 1, chain.Length)
    }

    /** The first entry of the buckets from b on. */
    method FirstFrom(b: nat) returns (gsmd: Gsmd?, ghost rest: seq<Gsmd>)
      requires Valid() && b <= chain.Length
      modifies `i
      ensures Ahead(gsmd, 0, rest) && rest == From(h, hashed, b, chain.Length)
    {
      i, rest := b, From(h, hashed, b, chain.Length);
      while i < chain.Length
        invariant b <= i <= chain.Length && rest == From(h, hashed, i, chain.Length)
      {
        ghost var c := InBucket(h, hashed, i);
        assert Links(chain[i], c, hashed);
        if chain[i] != null {
          gsmd := chain[i];
          assert c[0..] == c;
          return;
        }
        i := i + 1;
      }
      gsmd := null;
    }

    /** gsmd_next: from null it starts again; from an entry it goes on to the one after it. */
    method GsmdNext(gsmd: Gsmd?, ghost k: nat, ghost rest: seq<Gsmd>)
      returns (next: Gsmd?, ghost k': nat, ghost rest': seq<Gsmd>)
      requires Valid() && Ahead(gsmd, k, rest)
      modifies `i
      ensures Ahead(next, k', rest')
      ensures rest' == if gsmd == null then Order() else rest[1..]
    {
      k' := 0;
      if gsmd == null {
        next, rest' := FirstFrom(0);
        return;
      }
      ghost var c, later := InBucket(h, hashed, i), From(h, hashed, i + 1, chain.Length);
      assert Links(chain[i], c, hashed);
      assert c[k].next == if k + 1 < |c| then c[k + 1] else null;
      TailOf(c, k, later);
      if gsmd.next != null {
        next, k', rest' := gsmd.next, k + 1, rest[1..];
      } else {
        next, rest' := FirstFrom(i + 1);
      }
    }

    lemma TailOf(c: seq<Gsmd>, k: nat, later: seq<Gsmd>)
      requires k < |c|
      ensures (c[k..] + later)[1..] == c[k + 1..] + later
    {
    }

    lemma FirstOfRest(gsmd: Gsmd, k: nat, rest: seq<Gsmd>)
      requires Ahead(gsmd, k, rest)
      ensures rest != [] && rest[0] == gsmd
    {
    }

    /** One step of a walk. */
    method Visit(visited: seq<Gsmd>, gsmd: Gsmd, ghost k: nat, ghost rest: seq<Gsmd>)
      returns (visited': seq<Gsmd>, next: Gsmd?, ghost k': nat, ghost rest': seq<Gsmd>)
      requires Valid() && Ahead(gsmd, k, rest)
      modifies `i
      ensures Ahead(next, k', rest') && visited' + rest' == visited + rest && |rest'| < |rest|
    {
      FirstOfRest(gsmd, k, rest);
      MoveOver(visited, rest);
      visited' := visited + [gsmd];
      next, k', rest' := GsmdNext(gsmd, k, rest);
    }

    /** A whole walk meets every hashed entry exactly once. */
    method Walk() returns (visited: seq<Gsmd>)
      requires Valid()
      modifies `i
      ensures multiset(visited) == multiset(hashed) && visited == Order()
    {
      assert forall g | g in hashed :: h(g.name) == Bucket(g.name);
      FromIsPermutation(h, hashed, chain.Length);
      visited := WalkAll(Order());
    }

    method WalkAll(ghost order: seq<Gsmd>) returns (visited: seq<Gsmd>)
      requires Valid() && order == Order()
      modifies `i
      ensures visited == order
    {
      visited := [];
      var gsmd;
      ghost var k, rest;
      gsmd, k, rest := GsmdNext(null, 0, []);
      assert visited + rest == order;
      while gsmd != null
        invariant Ahead(gsmd, k, rest) && visited + rest == order
        decreases |rest|
      {
        visited, gsmd, k, rest := Visit(visited, gsmd, k, rest);
      }
      assert visited + [] == visited;
    }
  }

  /** Each head has the entries of its bucket behind it. */
  ghost predicate AllLink(h: Hash, heads: seq<Gsmd?>, all: seq<Gsmd>)
    reads all
  {
    |heads| == UHASH_SIZE &&
    forall b {:trigger InBucket(h, all, b)} | 0 <= b < UHASH_SIZE :: Links(heads[b], InBucket(h, all, b), all)
  }

  /** A new entry in front of the chain of its bucket. */
  lemma LinksPushed(h: Hash, heads: seq<Gsmd?>, all: seq<Gsmd>, gsmd: Gsmd, bucket: nat)
    requires AllLink(h, heads, all) && h(gsmd.name) == bucket < UHASH_SIZE && gsmd.next == heads[bucket]
    ensures AllLink(h, heads[bucket := gsmd], all + [gsmd])
  {
    forall b | 0 <= b < UHASH_SIZE
      ensures Links(heads[bucket := gsmd][b], InBucket(h, all + [gsmd], b), all + [gsmd])
    {
      InBucketAppend(h, all, gsmd, b);
      assert Links(heads[b], InBucket(h, all, b), all);
    }
  }

  lemma MoveOver(visited: seq<Gsmd>, rest: seq<Gsmd>)
    requires rest != []
    ensures visited + rest == visited + [rest[0]] + rest[1..]
  {
  }

  /** A chain with this head links exactly these entries. */
  ghost predicate Links(head: Gsmd?, c: seq<Gsmd>, all: seq<Gsmd>)
    reads all
  {
    && head == (if c == [] then null else c[0])
    && (forall k | 0 <= k < |c| :: c[k] in all)
    && (forall k {:trigger c[k].next} | 0 <= k < |c| :: c[k].next == if k + 1 < |c| then c[k + 1] else null)
  }
}
