/** Bytes and 16-bit words of the VectorNav modules.

    A 16-bit word is the sequence of its bits, most significant first; the C operators
    on it are spelled out bit by bit. Over the two-element field the same sequence is a
    polynomial, highest power first. */
module Bytes {

  newtype Byte = x: int | 0 <= x < 0x100

  const ASCII_START: Byte := 0x24      // '$'
  const CARRIAGE_RETURN: Byte := 0x0D
  const LINE_FEED: Byte := 0x0A
  const STAR: Byte := 0x2A             // '*'
  const BINARY_START: Byte := 0xFA

  type Poly = seq<bool>

  type Word = w: Poly | |w| == 16 witness Zeros(16)

  function Zeros(n: nat): (z: Poly)
    ensures |z| == n && forall i :: 0 <= i < n ==> !z[i]
  {
    seq(n, _ => false)
  }

  /** Bitwise exclusive or; the sum of two polynomials. */
  function Xor(a: Poly, b: Poly): (s: Poly)
    requires |a| == |b|
    ensures |s| == |a| && forall i {:trigger s[i]} :: 0 <= i < |s| ==> s[i] == (a[i] != b[i])
  {
    seq(|a|, i requires 0 <= i < |a| => a[i] != b[i])
  }

  function Or(a: Poly, b: Poly): (s: Poly)
    requires |a| == |b|
    ensures |s| == |a| && forall i {:trigger s[i]} :: 0 <= i < |s| ==> s[i] == (a[i] || b[i])
  {
    seq(|a|, i requires 0 <= i < |a| => a[i] || b[i])
  }

  function ShiftLeft(w: Word, n: nat): Word
    requires n <= 16
  {
    w[n..] + Zeros(n)
  }

  function ShiftRight(w: Word, n: nat): Word
    requires n <= 16
  {
    Zeros(n) + w[..16 - n]
  }

  /** w & 0xFF */
  function LowByte(w: Word): Word {
    Zeros(8) + w[8..]
  }

  /** The n low bits of a number. */
  function Bits(v: nat, n: nat): (b: Poly)
    ensures |b| == n
  {
    if n == 0 then [] else Bits(v / 2, n - 1) + [v % 2 == 1]
  }

  function Value(bits: Poly): nat {
    if bits == [] then 0
    else 2 * Value(bits[..|bits| - 1]) + if bits[|bits| - 1] then 1 else 0
  }

  function Power2(n: nat): (p: nat)
    ensures p > 0
  {
    if n == 0 then 1 else 2 * Power2(n - 1)
  }

  lemma {:induction false} ValueOfBits(v: nat, n: nat)
    requires v < Power2(n)
    ensures Value(Bits(v, n)) == v
  {
    if n == 0 {
    } else {
      assert v / 2 < Power2(n - 1);
      ValueOfBits(v / 2, n - 1);
      assert Bits(v, n)[..n - 1] == Bits(v / 2, n - 1) && v == 2 * (v / 2) + v % 2;
    }
  }

  lemma {:induction false} BitsOfValue(bits: Poly)
    ensures Value(bits) < Power2(|bits|) && Bits(Value(bits), |bits|) == bits
  {
    if bits == [] {
    } else {
      var n := |bits| - 1;
      BitsOfValue(bits[..n]);
      assert bits == bits[..n] + [bits[n]];
    }
  }

  lemma {:induction false} ZeroBits(n: nat)
    ensures Bits(0, n) == Zeros(n)
  {
    if n == 0 {
    } else {
      ZeroBits(n - 1);
    }
  }

  function ByteBits(d: Byte): (b: Poly)
    ensures |b| == 8
  {
    Bits(d as int, 8)
  }

  function ByteOf(bits: Poly): (d: Byte)
    requires |bits| == 8
    ensures ByteBits(d) == bits
  {
    BitsOfValue(bits);
    assert Power2(8) == 256;
    Value(bits) as Byte
  }

  lemma ByteBitsInjective(c: Byte, d: Byte)
    requires ByteBits(c) == ByteBits(d)
    ensures c == d
  {
    assert Power2(8) == 256;
    ValueOfBits(c as int, 8);
    ValueOfBits(d as int, 8);
  }

  function Widened(d: Byte): Word {
    Zeros(8) + ByteBits(d)
  }

  /** The bits of a message, most significant bit of each byte first. */
  function MessageBits(m: seq<Byte>): (b: Poly)
    ensures |b| == 8 * |m|
  {
    if m == [] then [] else MessageBits(m[..|m| - 1]) + ByteBits(m[|m| - 1])
  }

  /** A little-endian 16-bit load. */
  function WordAt(p: seq<Byte>, at: nat): Word
    requires at + 2 <= |p|
  {
    ByteBits(p[at + 1]) + ByteBits(p[at])
  }

  /** (w >> i) & 1, which is also w & (1 << i) */
  function Bit(w: Word, i: nat): bool
    requires i < 16
  {
    w[15 - i]
  }

  function CountSet(bits: Poly): (n: nat)
    ensures n <= |bits|
  {
    if bits == [] then 0 else (if bits[0] then 1 else 0) + CountSet(bits[1..])
  }

  lemma {:induction false} CountSetConcat(a: Poly, b: Poly)
    ensures CountSet(a + b) == CountSet(a) + CountSet(b)
  {
    if a == [] {
      assert a + b == b;
    } else {
      assert (a + b)[1..] == a[1..] + b;
      CountSetConcat(a[1..], b);
    }
  }
}
