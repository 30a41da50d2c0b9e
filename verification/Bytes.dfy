/** Bytes, and naturals in base 256 with the most significant byte first. */
module Bytes {

  type byte = b: int | 0 <= b < 256
  type bytes = seq<byte>

  const TWO_32 := 0x1_0000_0000

  function Power256(k: nat): (p: nat)
    ensures p > 0
  {
    if k == 0 then 1 else 256 * Power256(k - 1)
  }

  /** The number that s spells, leading zeros allowed (big.Int.SetBytes). */
  function Number(s: bytes): nat {
    if s == [] then 0
    else
      var last: int := s[|s| - 1];
      Number(s[..|s| - 1]) * 256 + last
  }

  /** The last `width` base-256 digits of n. */
  function Digits(n: nat, width: nat): (r: bytes)
    ensures |r| == width
  {
    if width == 0 then [] else Digits(n / 256, width - 1) + [n % 256]
  }

  lemma {:induction false} NumberBound(s: bytes)
    ensures Number(s) < Power256(|s|)
  {
    if s != [] {
      NumberBound(s[..|s| - 1]);
    }
  }

  lemma {:induction false} DigitsOf(s: bytes)
    ensures Digits(Number(s), |s|) == s
  {
    if s != [] {
      var front := s[..|s| - 1];
      DigitsOf(front);
      var last: int := s[|s| - 1];
      assert (Number(front) * 256 + last) / 256 == Number(front);
      assert s == front + [s[|s| - 1]];
    }
  }

  lemma {:induction false} NumberOfDigits(n: nat, width: nat)
    requires n < Power256(width)
    ensures Number(Digits(n, width)) == n
  {
    if width > 0 {
      NumberOfDigits(n / 256, width - 1);
      assert Digits(n, width)[..width - 1] == Digits(n / 256, width - 1);
    }
  }

  // ------------------------------------------------------- 32-bit lengths

  function FromU32(s: bytes): (n: nat)
    requires |s| == 4
    ensures n < TWO_32
  {
    NumberBound(s);
    Number(s)
  }

  lemma U32Exists(m: nat)
    requires m < TWO_32
    ensures |Digits(m, 4)| == 4 && FromU32(Digits(m, 4)) == m
    ensures forall r: bytes :: |r| == 4 && FromU32(r) == m ==> r == Digits(m, 4)
  {
    NumberOfDigits(m, 4);
    forall r: bytes | |r| == 4 && FromU32(r) == m ensures r == Digits(m, 4) {
      DigitsOf(r);
    }
  }

  /** uint32(n) in big-endian order: the four bytes that spell n modulo 2^32. */
  function U32(n: nat): (r: bytes)
    ensures |r| == 4 && FromU32(r) == n % TWO_32
  {
    U32Exists(n % TWO_32);
    var r: bytes :| |r| == 4 && FromU32(r) == n % TWO_32;
    r
  }

  lemma U32Unique(s: bytes)
    requires |s| == 4
    ensures U32(FromU32(s)) == s
  {
    U32Exists(FromU32(s));
  }

  /** Big-endian: the first byte weighs most. */
  lemma FourBytes(a: byte, b: byte, c: byte, d: byte)
    ensures FromU32([a, b, c, d]) == ((a as int * 256 + b as int) * 256 + c as int) * 256 + d as int
    ensures U32(FromU32([a, b, c, d])) == [a, b, c, d]
  {
    var s := [a, b, c, d];
    assert Number([a]) == a as int by { assert [a][..0] == []; }
    assert Number([a, b]) == a as int * 256 + b as int by { assert [a, b][..1] == [a]; }
    assert Number([a, b, c]) == (a as int * 256 + b as int) * 256 + c as int by { assert [a, b, c][..2] == [a, b]; }
    assert Number(s) == Number([a, b, c]) * 256 + d as int by { assert s[..3] == [a, b, c]; }
    U32Exists(FromU32(s));
  }
}
