/** Unsigned integers as the non-cryptographic part of otpd uses them: octets, uint32_t,
    uint64_t and the casts between them, all over the mathematical integers. */
module Bytes {

  const TWO31: int := 0x8000_0000
  const TWO32: int := 0x1_0000_0000
  const TWO64: int := 0x1_0000_0000_0000_0000

  type uchar = x: int | 0 <= x < 0x100
  type uint32 = x: int | 0 <= x < 0x1_0000_0000
  type uint64 = x: int | 0 <= x < 0x1_0000_0000_0000_0000

  datatype Option<+T> = None | Some(value: T)

  /** (uint32_t) x, for a value of any signed or unsigned type. */
  function ToU32(x: int): uint32 {
    x % TWO32
  }

  /** (int32_t) x of an unsigned value: two's complement. */
  function ToI32(x: uint32): int {
    if x < TWO31 then x else x - TWO32
  }

  /** (uint64_t) x. */
  function ToU64(x: int): uint64 {
    x % TWO64
  }

  /** A sequence of octets, most significant first, as a number (network order). */
  function FromBE(s: seq<uchar>): nat {
    if s == [] then 0 else 0x100 * FromBE(s[..|s| - 1]) + s[|s| - 1]
  }

  /** n as len octets, most significant first. */
  function ToBE(n: nat, len: nat): (s: seq<uchar>)
    ensures |s| == len
  {
    if len == 0 then [] else ToBE(n / 0x100, len - 1) + [n % 0x100]
  }

  function Pow2(n: nat): nat {
    if n == 0 then 1 else 2 * Pow2(n - 1)
  }

  function Pow256(n: nat): (p: nat)
    ensures p > 0
  {
    if n == 0 then 1 else 0x100 * Pow256(n - 1)
  }

  lemma {:induction false} FromToBE(n: nat, len: nat)
    requires n < Pow256(len)
    ensures FromBE(ToBE(n, len)) == n
  {
    if len == 0 {
    } else {
      FromToBE(n / 0x100, len - 1);
      assert ToBE(n, len)[..len - 1] == ToBE(n / 0x100, len - 1);
    }
  }

  lemma {:induction false} ToFromBE(s: seq<uchar>)
    ensures ToBE(FromBE(s), |s|) == s
    ensures FromBE(s) < Pow256(|s|)
  {
    if s == [] {
    } else {
      var t := s[..|s| - 1];
      ToFromBE(t);
      assert FromBE(s) / 0x100 == FromBE(t) && FromBE(s) % 0x100 == s[|s| - 1];
      assert s == t + [s[|s| - 1]];
    }
  }

  lemma Pow256Values()
    ensures Pow256(4) == TWO32 && Pow256(8) == TWO64
  {
    assert Pow256(2) == 0x1_0000;
    assert Pow256(6) == 0x1_0000 * Pow256(4);
  }

  lemma FromBE4(s: seq<uchar>)
    requires |s| == 4
    ensures FromBE(s) == 0x100_0000 * (s[0] as int) + 0x1_0000 * (s[1] as int) + 0x100 * (s[2] as int) + s[3] as int
  {
    assert s[..3][..2] == s[..2] && s[..2][..1] == s[..1] && s[..1][..0] == [];
    assert FromBE(s[..1]) == s[0];
    assert FromBE(s[..2]) == 0x100 * (s[0] as int) + s[1] as int;
    assert FromBE(s[..3]) == 0x1_0000 * (s[0] as int) + 0x100 * (s[1] as int) + s[2] as int;
  }

  lemma {:induction false} FromBEConcat(s: seq<uchar>, t: seq<uchar>)
    ensures FromBE(s + t) == FromBE(s) * Pow256(|t|) + FromBE(t)
  {
    if t == [] {
      assert s + t == s;
    } else {
      var u := t[..|t| - 1];
      FromBEConcat(s, u);
      assert (s + t)[..|s + t| - 1] == s + u;
      assert FromBE(s) * Pow256(|t|) == 0x100 * (FromBE(s) * Pow256(|u|));
    }
  }
}
