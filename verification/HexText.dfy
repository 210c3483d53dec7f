/** Hexadecimal text: the converters of xfunc.c (a2x, a2nx, x2a), printf's %x and
    scanf's %x, as used for challenges, resync data and the numbers of a state line. */
module HexText {
  import opened Bytes

  const CONVERSION := "0123456789abcdef"

  /** An entry of the conversion table. */
  function Digit(n: nat): char
    requires n < 16
  {
    if n < 10 then '0' + n as char else 'a' + (n - 10) as char
  }

  lemma DigitIsConversion(n: nat)
    requires n < 16
    ensures Digit(n) == CONVERSION[n]
  {
  }

  predicate IsDigit(c: char) {
    '0' <= c <= '9' || 'A' <= c <= 'F' || 'a' <= c <= 'f'
  }

  function Nibble(c: char): (n: nat)
    requires IsDigit(c)
    ensures n < 16
  {
    if c <= '9' then c as int - '0' as int
    else if c <= 'F' then c as int - 'A' as int + 10
    else c as int - 'a' as int + 10
  }

  lemma NibbleOfDigit(n: nat)
    requires n < 16
    ensures IsDigit(Digit(n)) && Nibble(Digit(n)) == n
  {
  }

  // ---- octets -------------------------------------------------------------

  /** What x2a writes before its NUL. */
  function Encode(x: seq<uchar>): (s: string)
    ensures |s| == 2 * |x|
  {
    if x == [] then [] else [Digit(x[0] / 16), Digit(x[0] % 16)] + Encode(x[1..])
  }

  /** What a2nx reads from the first 2 * l characters. */
  function Decode(s: string, l: nat): (x: Option<seq<uchar>>)
    requires 2 * l <= |s|
    ensures x.Some? ==> |x.value| == l
    decreases l
  {
    if l == 0 then Some([])
    else if !IsDigit(s[0]) || !IsDigit(s[1]) then None
    else
      match Decode(s[2..], l - 1)
      case None => None
      case Some(rest) => Some([16 * Nibble(s[0]) + Nibble(s[1])] + rest)
  }

  lemma PairOfOctet(b: uchar)
    ensures IsDigit(Digit(b / 16)) && IsDigit(Digit(b % 16))
    ensures 16 * Nibble(Digit(b / 16)) + Nibble(Digit(b % 16)) == b
  {
    NibbleOfDigit(b / 16);
    NibbleOfDigit(b % 16);
  }

  lemma {:induction false} EncodeAppend(x: seq<uchar>, b: uchar)
    ensures Encode(x + [b]) == Encode(x) + [Digit(b / 16), Digit(b % 16)]
  {
    if x == [] {
      assert x + [b] == [b] && [b][1..] == [];
      assert [Digit(b / 16), Digit(b % 16)] + [] == [Digit(b / 16), Digit(b % 16)];
    } else {
      assert (x + [b])[1..] == x[1..] + [b];
      EncodeAppend(x[1..], b);
    }
  }

  /** Reading is the inverse of writing. */
  lemma {:induction false} DecodeEncode(x: seq<uchar>)
    ensures Decode(Encode(x), |x|) == Some(x)
  {
    if x == [] {
    } else {
      var s := Encode(x);
      PairOfOctet(x[0]);
      DecodeEncode(x[1..]);
      assert s[2..] == Encode(x[1..]);
      assert s[0] == Digit(x[0] / 16) && s[1] == Digit(x[0] % 16);
      assert x == [x[0]] + x[1..];
    }
  }

  /** The two sets of digits that are read, of which the first is written. */
  lemma DigitTable(n: nat)
    requires n < 16
    ensures Digit(n) == "0123456789abcdef"[n]
    ensures var c, d := "0123456789abcdef"[n], "0123456789ABCDEF"[n];
      IsDigit(c) && Nibble(c) == n && IsDigit(d) && Nibble(d) == n
  {
  }

  lemma OnlyDigits(c: char)
    ensures IsDigit(c) <==> c in "0123456789abcdefABCDEF"
  {
    if IsDigit(c) {
      DigitTable(Nibble(c));
      assert c == "0123456789abcdef"[Nibble(c)] || c == "0123456789ABCDEF"[Nibble(c)];
    }
  }

  /** The upper four bits of an octet are written first. */
  lemma {:induction false} EncodeAt(x: seq<uchar>, i: nat)
    requires i < |x|
    ensures Encode(x)[2 * i] == "0123456789abcdef"[x[i] / 16]
    ensures Encode(x)[2 * i + 1] == "0123456789abcdef"[x[i] % 16]
  {
    if i == 0 {
      DigitTable(x[0] / 16);
      DigitTable(x[0] % 16);
    } else {
      EncodeAt(x[1..], i - 1);
    }
  }

  /** A digit in lower case. */
  function Lower(c: char): char
    requires IsDigit(c)
  {
    if 'A' <= c <= 'F' then (c as int - 'A' as int + 'a' as int) as char else c
  }

  lemma LowerIsDigit(c: char)
    requires IsDigit(c)
    ensures Lower(c) == Digit(Nibble(c))
  {
  }

  /** Writing what was read gives the same text in lower case. */

  lemma {:induction false} EncodeDecode(s: string, l: nat)
    requires |s| == 2 * l
    ensures Decode(s, l).Some? <==> forall i | 0 <= i < |s| :: IsDigit(s[i])
    ensures Decode(s, l).Some? ==>
      forall i | 0 <= i < |s| :: Encode(Decode(s, l).value)[i] == Lower(s[i])
    decreases l
  {
    if l == 0 {
    } else {
      var t := s[2..];
      EncodeDecode(t, l - 1);
      assert forall i | 2 <= i < |s| :: s[i] == t[i - 2];
      if Decode(s, l).Some? {
        var x := Decode(s, l).value;
        assert x[1..] == Decode(t, l - 1).value;
        assert Encode(x) == [Digit(x[0] / 16), Digit(x[0] % 16)] + Encode(x[1..]);
        assert x[0] / 16 == Nibble(s[0]) && x[0] % 16 == Nibble(s[1]);
        LowerIsDigit(s[0]);
        LowerIsDigit(s[1]);
      }
    }
  }

  /** a2nx: the octets go to x[0..l]; -1 at the first character that is no digit. */
  method A2nx(s: string, x: array<uchar>, l: nat) returns (r: int)
    requires 2 * l <= |s| && l <= x.Length
    modifies x
    ensures r == if Decode(s, l).Some? then l else -1
    ensures r >= 0 ==> x[..l] == Decode(s, l).value
    ensures forall i | l <= i < x.Length :: x[i] == old(x[i])
  {
    var i := 0;
    assert s[0..] == s;
    assert Decode(s, l).Some? ==> x[..0] + Decode(s, l).value == Decode(s, l).value;
    while i < l
      invariant i <= l
      invariant match Decode(s[2 * i..], l - i)
        case None => Decode(s, l).None?
        case Some(rest) => Decode(s, l) == Some(x[..i] + rest)
      invariant forall j | l <= j < x.Length :: x[j] == old(x[j])
    {
      var n0, n1 := s[2 * i], s[2 * i + 1];
      if !IsDigit(n0) || !IsDigit(n1) {
        return -1;
      }
      ghost var done := x[..i];
      assert s[2 * i..][2..] == s[2 * (i + 1)..];
      x[i] := 16 * Nibble(n0) + Nibble(n1);
      assert x[..i + 1] == done + [x[i]];
      assert forall rest: seq<uchar> :: done + ([x[i]] + rest) == x[..i + 1] + rest;
      i := i + 1;
    }
    assert x[..l] + [] == x[..l];
    r := l;
  }

  /** a2x: as many octets as the text has pairs; an odd last character is not looked at. */
  method A2x(s: string, x: array<uchar>) returns (r: int)
    requires |s| / 2 <= x.Length
    modifies x
    ensures r == if Decode(s, |s| / 2).Some? then |s| / 2 else -1
    ensures r >= 0 ==> x[..r] == Decode(s, |s| / 2).value
    ensures forall i | |s| / 2 <= i < x.Length :: x[i] == old(x[i])
  {
    r := A2nx(s, x, |s| / 2);
  }

  /** x2a with the plain hexadecimal conversion: 2 * len characters and a NUL. */
  method X2a(x: array<uchar>, len: nat, s: array<char>)
    requires len <= x.Length && 2 * len + 1 <= s.Length
    modifies s
    ensures s[..2 * len] == Encode(x[..len]) && s[2 * len] == '\0'
    ensures forall i | 2 * len < i < s.Length :: s[i] == old(s[i])
  {
    var i := 0;
    while i < len
      invariant i <= len
      invariant s[..2 * i] == Encode(x[..i])
      invariant forall j | 2 * len < j < s.Length :: s[j] == old(s[j])
    {
      EncodeAppend(x[..i], x[i]);
      assert x[..i + 1] == x[..i] + [x[i]];
      DigitIsConversion(x[i] / 16);
      DigitIsConversion(x[i] % 16);
      s[2 * i] := CONVERSION[x[i] / 16];
      s[2 * i + 1] := CONVERSION[x[i] % 16];
      i := i + 1;
    }
    s[2 * len] := '\0';
  }

  // ---- numbers ------------------------------------------------------------

  /** printf's %x. */
  function Print(n: nat): (s: string)
    ensures |s| >= 1
  {
    if n < 16 then [Digit(n)] else Print(n / 16) + [Digit(n % 16)]
  }

  lemma {:induction false} PrintDigits(n: nat)
    ensures forall c | c in Print(n) :: IsDigit(c)
  {
    NibbleOfDigit(n % 16);
    if n >= 16 {
      PrintDigits(n / 16);
    }
  }

  lemma {:induction false} PrintLength(n: nat, k: nat)
    requires n < Pow16(k) && k > 0
    ensures |Print(n)| <= k
    decreases k
  {
    if n >= 16 {
      PrintLength(n / 16, k - 1);
    }
  }

  function Pow16(k: nat): nat {
    if k == 0 then 1 else 16 * Pow16(k - 1)
  }

  predicate IsSpace(c: char) {
    c == ' ' || '\t' <= c <= '\r'
  }

  function SkipSpace(s: string): string {
    if s != [] && IsSpace(s[0]) then SkipSpace(s[1..]) else s
  }

  /** The value of the longest prefix of digits, after n read so far. */
  function DigitsValue(s: string, n: nat): nat
    decreases |s|
  {
    if s == [] || !IsDigit(s[0]) then n else DigitsValue(s[1..], 16 * n + Nibble(s[0]))
  }

  /** strtoul's result for a magnitude and a sign: saturated, then negated modulo 2^64. */
  function Strtoul(n: nat, negative: bool): uint64 {
    if n >= TWO64 then TWO64 - 1 else if negative then (TWO64 - n) % TWO64 else n
  }

  /** scanf's %x into a uint32_t: leading white space, an optional sign, an optional 0x, at
      least one digit; anything may follow. */
  function Scan(s: string): Option<uint32> {
    var t := SkipSpace(s);
    var signed := t != [] && (t[0] == '-' || t[0] == '+');
    var u := if signed then t[1..] else t;
    var v := if |u| >= 2 && u[0] == '0' && (u[1] == 'x' || u[1] == 'X') then u[2..] else u;
    if v == [] || !IsDigit(v[0]) then None
    else Some(ToU32(Strtoul(DigitsValue(v, 0), signed && t[0] == '-')))
  }

  lemma {:induction false} DigitsValueAppend(s: string, t: string, n: nat)
    requires forall c | c in s :: IsDigit(c)
    ensures DigitsValue(s + t, n) == DigitsValue(t, DigitsValue(s, n))
    decreases |s|
  {
    if s == [] {
      assert s + t == t;
    } else {
      assert (s + t)[1..] == s[1..] + t;
      DigitsValueAppend(s[1..], t, 16 * n + Nibble(s[0]));
    }
  }

  lemma {:induction false} DigitsValuePrint(n: nat)
    ensures DigitsValue(Print(n), 0) == n
  {
    NibbleOfDigit(n % 16);
    assert DigitsValue([], n) == n;
    if n < 16 {
      assert Print(n)[1..] == [];
    } else {
      PrintDigits(n / 16);
      DigitsValuePrint(n / 16);
      DigitsValueAppend(Print(n / 16), [Digit(n % 16)], 0);
      assert [Digit(n % 16)][1..] == [];
    }
  }

  /** %x text is never mistaken for a 0x prefix: it has no leading zero. */
  lemma {:induction false} PrintHasNoLeadingZero(n: nat)
    ensures |Print(n)| >= 2 ==> Print(n)[0] != '0'
  {
    if n >= 16 {
      PrintHasNoLeadingZero(n / 16);
    }
  }

  lemma PrintStartsWithDigit(n: nat)
    ensures var c := Print(n)[0]; IsDigit(c) && !IsSpace(c) && c != '-' && c != '+'
  {
    PrintDigits(n);
    assert Print(n)[0] in Print(n);
  }

  /** scanf reads back what printf wrote. */
  lemma ScanPrint(n: uint32)
    ensures Scan(Print(n)) == Some(n)
  {
    var s := Print(n);
    PrintStartsWithDigit(n);
    PrintHasNoLeadingZero(n);
    assert SkipSpace(s) == s;
    DigitsValuePrint(n);
  }

  /** Numbers have the digits of octets, without leading zeros. */
  lemma PrintOfOctet(n: uchar)
    ensures Print(n) == if n < 16 then Encode([n])[1..] else Encode([n])
  {
    EncodeAt([n], 0);
    assert Encode([n]) == [Digit(n / 16), Digit(n % 16)] + Encode([]);
    if n >= 16 {
      assert Print(n) == Print(n / 16) + [Digit(n % 16)];
    }
  }

  /** White space in front is skipped. */
  lemma ScanSpaced(c: char, s: string)
    requires c in " \t\n\r"
    ensures Scan([c] + s) == Scan(s)
  {
    assert ([c] + s)[1..] == s;
  }

  /** A minus negates. */
  lemma ScanNegated(n: uint32)
    ensures Scan("-" + Print(n)) == Some((0x1_0000_0000 - n) % 0x1_0000_0000)
  {
    var s, m := Print(n), "-" + Print(n);
    PrintStartsWithDigit(n);
    PrintHasNoLeadingZero(n);
    DigitsValuePrint(n);
    assert SkipSpace(m) == m && m[1..] == s;
    Negated(n);
  }

  lemma Negated(n: uint32)
    ensures ToU32(Strtoul(n, true)) == (0x1_0000_0000 - n) % 0x1_0000_0000
  {
    if n > 0 {
      assert TWO64 - n == TWO32 * (TWO32 - 1) + (TWO32 - n);
    }
  }

  /** A plus does not. */
  lemma ScanSigned(n: uint32)
    ensures Scan("+" + Print(n)) == Some(n)
  {
    var s, p := Print(n), "+" + Print(n);
    PrintStartsWithDigit(n);
    PrintHasNoLeadingZero(n);
    DigitsValuePrint(n);
    assert SkipSpace(p) == p && p[1..] == s;
  }

  /** A 0x in front of digits is skipped as well. */
  lemma ScanPrefixed(n: uint32, x: char)
    requires x in "xX"
    ensures Scan(['0', x] + Print(n)) == Some(n)
  {
    var s, p := Print(n), ['0', x] + Print(n);
    PrintStartsWithDigit(n);
    DigitsValuePrint(n);
    assert SkipSpace(p) == p && p[2..] == s;
  }

  /** A text that starts with anything else is no number. */
  lemma ScanFails(s: string)
    requires s == "" || (!IsSpace(s[0]) && s[0] !in "+-" && !IsDigit(s[0]))
    ensures Scan(s) == None
  {
  }
}
