/** uhash.c: the bucket of a name, an exclusive or of six-bit codes. */
module Uhash {
  const UHASH_SIZE := 64

  /** The table of uhash.c: 0-9, A-Z and a-z count up from zero, anything else is zero. */
  function Entry(c: char): (n: nat)
    ensures n < 64
  {
    if '0' <= c <= '9' then c as int - '0' as int
    else if 'A' <= c <= 'Z' then c as int - 'A' as int + 10
    else if 'a' <= c <= 'z' then c as int - 'a' as int + 36
    else 0
  }

  function Code(c: char): bv6 {
    Entry(c) as bv6
  }

  function Fold(name: string, bucket: bv6): bv6 {
    if name == [] then bucket else Fold(name[1..], bucket ^ Code(name[0]))
  }

  function Bucket(name: string): (b: nat)
    ensures b < UHASH_SIZE
  {
    Fold(name, 0) as nat
  }

  method Uhash(name: string) returns (bucket: nat)
    ensures bucket == Bucket(name)
  {
    var b: bv6, i := 0, 0;
    assert name[0..] == name;
    while i < |name|
      invariant 0 <= i <= |name| && Fold(name, 0) == Fold(name[i..], b)
    {
      assert name[i..][1..] == name[i + 1..];
      b := b ^ Code(name[i]);
      i := i + 1;
    }
    bucket := b as nat;
  }

  // ---- what the buckets are -----------------------------------------------

  lemma {:induction false} FoldStarts(name: string, b: bv6)
    ensures Fold(name, b) == b ^ Fold(name, 0)
  {
    if name != [] {
      FoldStarts(name[1..], b ^ Code(name[0]));
      FoldStarts(name[1..], 0 ^ Code(name[0]));
      Regroup(b, Code(name[0]), Fold(name[1..], 0));
    }
  }

  lemma Regroup(a: bv6, b: bv6, c: bv6)
    ensures (a ^ b) ^ c == a ^ ((0 ^ b) ^ c)
  {
  }

  /** The bucket of two names in a row is the exclusive or of theirs ... */
  lemma {:induction false} BucketOfTwo(a: string, b: string)
    ensures Fold(a + b, 0) == Fold(a, 0) ^ Fold(b, 0)
  {
    if a == [] {
      assert a + b == b;
    } else {
      var c := Code(a[0]);
      assert (a + b)[1..] == a[1..] + b;
      BucketOfTwo(a[1..], b);
      FoldStarts(a[1..] + b, 0 ^ c);
      FoldStarts(a[1..], 0 ^ c);
      Regroup(0 ^ c, Fold(a[1..], 0), Fold(b, 0));
    }
  }

  lemma BucketOfOne(c: char)
    ensures Bucket([c]) == Entry(c)
  {
    assert [c][1..] == [];
    assert Fold([c], 0) == Fold([], 0 ^ Code(c)) == 0 ^ Code(c);
    ZeroXor(Code(c));
    SixBits(Entry(c));
  }

  lemma SixBits(n: nat)
    requires n < 64
    ensures (n as bv6) as nat == n
  {
  }

  lemma ZeroXor(a: bv6)
    ensures 0 ^ a == a
  {
  }

  predicate IsAlphanumeric(c: char) {
    '0' <= c <= '9' || 'A' <= c <= 'Z' || 'a' <= c <= 'z'
  }

  /** ... and the one-character names have buckets of their own, in ascending order from 0 to 61;
      all other characters are like '0'. So names with the same characters in another order share
      a bucket. */
  lemma BucketsOfOne(c: char, d: char)
    ensures IsAlphanumeric(c) && IsAlphanumeric(d) && c < d ==> Bucket([c]) < Bucket([d])
    ensures Bucket("0") == 0 && Bucket("9") == 9 && Bucket("A") == 10 && Bucket("Z") == 35 && Bucket("a") == 36 && Bucket("z") == 61
    ensures !IsAlphanumeric(c) ==> Bucket([c]) == 0
  {
    BucketOfOne(c);
    BucketOfOne(d);
    BucketOfOne('0');
    BucketOfOne('9');
    BucketOfOne('A');
    BucketOfOne('Z');
    BucketOfOne('a');
    BucketOfOne('z');
  }
}
