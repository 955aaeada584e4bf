/** What the zero test over a received byte string detects (vndevice.c checks
    that the CRC of the bytes after the start byte, trailer included, is zero). */
module CrcDetection {
  import opened Bytes
  import opened Crc16

  /** The bits in which two strings of the same length differ. */
  function Difference(m: seq<Byte>, received: seq<Byte>): (e: Poly)
    requires |m| == |received|
  {
    Xor(MessageBits(m), MessageBits(received))
  }

  // ---------------------------------------------------------------------------
  // Linearity
  // ---------------------------------------------------------------------------

  lemma BitStepXor(r: Word, s: Word, a: bool, b: bool)
    ensures BitStep(Xor(r, s), a != b) == Xor(BitStep(r, a), BitStep(s, b))
  {
  }

  lemma {:induction false} RemainderXor(a: Poly, b: Poly)
    requires |a| == |b|
    ensures Remainder(Xor(a, b)) == Xor(Remainder(a), Remainder(b))
  {
    if a == [] {
    } else {
      var n := |a| - 1;
      assert Xor(a, b)[..n] == Xor(a[..n], b[..n]);
      RemainderXor(a[..n], b[..n]);
      BitStepXor(Remainder(a[..n]), Remainder(b[..n]), a[n], b[n]);
    }
  }

  /** The CRC of the bitwise sum of two messages is the sum of their CRCs. */
  lemma CrcIsLinear(a: seq<Byte>, b: seq<Byte>, sum: seq<Byte>)
    requires |a| == |b| && MessageBits(sum) == Xor(MessageBits(a), MessageBits(b))
    ensures Crc(sum) == Xor(Crc(a), Crc(b))
  {
    CrcIsRemainder(a);
    CrcIsRemainder(b);
    CrcIsRemainder(sum);
    RemainderXor(MessageBits(a), MessageBits(b));
  }

  lemma XorIsZeroIffEqual(a: Word, b: Word)
    ensures Xor(a, b) == Zeros(16) <==> a == b
  {
    var s := Xor(a, b);
    if s == Zeros(16) {
      forall i | 0 <= i < 16 ensures a[i] == b[i] {
        assert !s[i];
      }
    }
  }

  /** Another string is accepted too exactly when the generator divides the difference. */
  lemma UndetectedIff(m: seq<Byte>, received: seq<Byte>)
    requires |m| == |received| && Crc(m) == Zeros(16)
    ensures Crc(received) == Zeros(16) <==> Remainder(Difference(m, received)) == Zeros(16)
  {
    CrcIsRemainder(m);
    CrcIsRemainder(received);
    RemainderXor(MessageBits(m), MessageBits(received));
    XorIsZeroIffEqual(Crc(m), Crc(received));
  }

  // ---------------------------------------------------------------------------
  // Up to sixteen more bits
  // ---------------------------------------------------------------------------

  lemma BitStepToEven(r: Word, b: bool, t: Word)
    requires !t[15]
    ensures BitStep(r, b) == t <==> r == [b] + t[..15]
  {
    BitStepBits(r, b);
    if BitStep(r, b) == t {
      assert r[0] == b;
      forall i | 0 <= i < 16 ensures r[i] == ([b] + t[..15])[i] {
        if i > 0 { assert t[i - 1] == r[i]; }
      }
    }
    if r == [b] + t[..15] {
      var s := BitStep(r, b);
      forall i | 0 <= i < 16 ensures s[i] == t[i] {
        if i < 15 { assert r[i + 1] == t[i]; }
      }
    }
  }

  lemma ContinueFirst(r: Word, b: bool, rest: Poly)
    ensures Continue(r, [b] + rest) == Continue(BitStep(r, b), rest)
  {
    ContinueConcat(r, [b], rest);
    assert [b][..0] == [];
  }

  lemma StepToPadded(r: Word, b: bool, rest: Poly)
    requires |rest| < 16
    ensures BitStep(r, b) == rest + Zeros(16 - |rest|) <==> r == [b] + rest + Zeros(15 - |rest|)
  {
    var t := rest + Zeros(16 - |rest|);
    BitStepToEven(r, b, t);
    assert [b] + t[..15] == [b] + rest + Zeros(15 - |rest|);
  }

  /** At most sixteen further bits bring the register to zero only if they repeat it. */
  lemma {:induction false} ZeroOnlyByRepeating(r: Word, bits: Poly)
    requires |bits| <= 16
    ensures Continue(r, bits) == Zeros(16) <==> r == bits + Zeros(16 - |bits|)
    decreases |bits|
  {
    if bits == [] {
      assert bits + Zeros(16) == Zeros(16);
    } else {
      var b, rest := bits[0], bits[1..];
      assert bits == [b] + rest;
      var r1 := BitStep(r, b);
      calc <==> {
        Continue(r, bits) == Zeros(16);
        { ContinueFirst(r, b, rest); }
        Continue(r1, rest) == Zeros(16);
        { ZeroOnlyByRepeating(r1, rest); }
        r1 == rest + Zeros(16 - |rest|);
        { StepToPadded(r, b, rest); }
        r == [b] + rest + Zeros(15 - |rest|);
      }
    }
  }

  /** For every message, two appended bytes give CRC zero exactly when they are its
      CRC, high byte first. */
  lemma TrailerIsUnique(m: seq<Byte>, high: Byte, low: Byte)
    ensures Crc(m + [high, low]) == Zeros(16) <==> ByteBits(high) + ByteBits(low) == Crc(m)
  {
    var whole := m + [high, low];
    assert whole[..|m| + 1] == m + [high] && (m + [high])[..|m|] == m;
    ContinueByte(Crc(m), high);
    ContinueByte(Crc(m + [high]), low);
    ContinueConcat(Crc(m), ByteBits(high), ByteBits(low));
    ZeroOnlyByRepeating(Crc(m), ByteBits(high) + ByteBits(low));
    assert ByteBits(high) + ByteBits(low) + Zeros(0) == ByteBits(high) + ByteBits(low);
  }

  // ---------------------------------------------------------------------------
  // Bursts
  // ---------------------------------------------------------------------------

  ghost predicate AllZero(p: Poly) {
    forall i :: 0 <= i < |p| ==> !p[i]
  }

  /** Something is set, and everything set lies within 16 consecutive positions. */
  ghost predicate IsBurst(p: Poly, k: nat) {
    && !AllZero(p)
    && forall i :: 0 <= i < |p| && p[i] ==> k <= i < k + 16
  }

  lemma {:induction false} ZerosChangeNothing(r: Word, z: Poly)
    requires AllZero(z)
    ensures Continue(r, z) == Zeros(16) <==> r == Zeros(16)
  {
    if z == [] {
    } else {
      var n := |z| - 1;
      ZerosChangeNothing(r, z[..n]);
      BitStepToEven(Continue(r, z[..n]), false, Zeros(16));
      assert [false] + Zeros(16)[..15] == Zeros(16);
    }
  }

  lemma BurstLeavesRemainder(p: Poly, k: nat)
    requires IsBurst(p, k)
    ensures Remainder(p) != Zeros(16)
  {
    var end := if k + 16 <= |p| then k + 16 else |p|;
    BurstParts(p, k, end);
    assert p == p[..k] + p[k..end] + p[end..];
    RemainderContinues(p);
    ThreeParts(p[..k], p[k..end], p[end..]);
    ZerosChangeNothing(Zeros(16), p[..k]);
    ShortNonZero(p[k..end]);
    ZerosChangeNothing(Continue(Zeros(16), p[k..end]), p[end..]);
  }

  lemma BurstParts(p: Poly, k: nat, end: nat)
    requires IsBurst(p, k) && end == if k + 16 <= |p| then k + 16 else |p|
    ensures k < end && AllZero(p[..k]) && !AllZero(p[k..end]) && AllZero(p[end..])
  {
    var i :| 0 <= i < |p| && p[i];
    assert p[k..end][i - k];
  }

  lemma ThreeParts(a: Poly, b: Poly, c: Poly)
    ensures Continue(Zeros(16), a + b + c) == Continue(Continue(Continue(Zeros(16), a), b), c)
  {
    ContinueConcat(Zeros(16), a + b, c);
    ContinueConcat(Zeros(16), a, b);
  }

  lemma ShortNonZero(bits: Poly)
    requires |bits| <= 16 && !AllZero(bits)
    ensures Continue(Zeros(16), bits) != Zeros(16)
  {
    ZeroOnlyByRepeating(Zeros(16), bits);
    var i :| 0 <= i < |bits| && bits[i];
    assert (bits + Zeros(16 - |bits|))[i];
  }

  /** An error confined to 16 consecutive bits, anywhere in an accepted string and not
      necessarily byte-aligned, makes the zero test fail. */
  lemma BurstIsDetected(m: seq<Byte>, received: seq<Byte>, k: nat)
    requires |m| == |received| && Crc(m) == Zeros(16)
    requires IsBurst(Difference(m, received), k)
    ensures Crc(received) != Zeros(16)
  {
    BurstLeavesRemainder(Difference(m, received), k);
    UndetectedIff(m, received);
  }

  // ---------------------------------------------------------------------------
  // Parity
  // ---------------------------------------------------------------------------

  /** The number of set bits is odd. */
  predicate Odd(p: Poly) {
    p != [] && Odd(p[..|p| - 1]) != p[|p| - 1]
  }

  lemma {:induction false} OddConcat(a: Poly, b: Poly)
    ensures Odd(a + b) == (Odd(a) != Odd(b))
  {
    if b == [] {
      assert a + b == a;
    } else {
      var n := |b| - 1;
      assert (a + b)[..|a + b| - 1] == a + b[..n];
      OddConcat(a, b[..n]);
    }
  }

  lemma {:induction false} OddXor(a: Poly, b: Poly)
    requires |a| == |b|
    ensures Odd(Xor(a, b)) == (Odd(a) != Odd(b))
  {
    if a == [] {
    } else {
      var n := |a| - 1;
      assert Xor(a, b)[..n] == Xor(a[..n], b[..n]);
      OddXor(a[..n], b[..n]);
    }
  }

  lemma {:induction false} ZerosAreEven(n: nat)
    ensures !Odd(Zeros(n))
  {
    if n == 0 {
    } else {
      assert Zeros(n)[..n - 1] == Zeros(n - 1);
      ZerosAreEven(n - 1);
    }
  }

  lemma OneBitAfter(a: Poly, n: nat)
    ensures Odd(a + (Zeros(n) + [true])) == !Odd(a)
  {
    ZerosAreEven(n);
    OddConcat(a, Zeros(n) + [true]);
    OddConcat(Zeros(n), [true]);
    assert [true][..0] == [];
  }

  /** The generator has four terms, so it is even; without its leading term it is odd. */
  lemma GeneratorTailIsOdd()
    ensures Odd(Generator()[1..])
  {
    var a := [] + (Zeros(3) + [true]);
    var b := a + (Zeros(6) + [true]);
    OneBitAfter([], 3);
    OneBitAfter(a, 6);
    OneBitAfter(b, 4);
    assert b + (Zeros(4) + [true]) == Generator()[1..];
  }

  lemma BitStepParity(r: Word, b: bool)
    ensures Odd(BitStep(r, b)) == (Odd(r) != b)
  {
    assert r == [r[0]] + r[1..];
    OddConcat([r[0]], r[1..]);
    assert [r[0]][..0] == [];
    OddConcat(r[1..], [false]);
    assert [false][..0] == [];
    if r[0] != b {
      GeneratorTailIsOdd();
      OddXor(r[1..] + [false], Generator()[1..]);
    } else {
      ZerosAreEven(16);
      OddXor(r[1..] + [false], Zeros(16));
    }
  }

  lemma {:induction false} RemainderParity(p: Poly)
    ensures Odd(Remainder(p)) == Odd(p)
  {
    if p == [] {
      ZerosAreEven(16);
    } else {
      var n := |p| - 1;
      RemainderParity(p[..n]);
      BitStepParity(Remainder(p[..n]), p[n]);
    }
  }

  /** The bit parity of the CRC is the bit parity of the message. */
  lemma CrcParity(m: seq<Byte>)
    ensures Odd(Crc(m)) == Odd(MessageBits(m))
  {
    CrcIsRemainder(m);
    RemainderParity(MessageBits(m));
  }

  /** Flipping an odd number of bits of an accepted string makes the zero test fail. */
  lemma OddErrorIsDetected(m: seq<Byte>, received: seq<Byte>)
    requires |m| == |received| && Crc(m) == Zeros(16)
    requires Odd(Difference(m, received))
    ensures Crc(received) != Zeros(16)
  {
    RemainderParity(Difference(m, received));
    ZerosAreEven(16);
    UndetectedIff(m, received);
  }
}
