/** The 16-bit CRC of vndevice.c: the byte-wise loop, the polynomial division it
    stands for, and what the zero test over a received packet detects.
 */
module Crc16 {
  import opened Bytes

  // ---------------------------------------------------------------------------
  // The byte-wise loop
  // ---------------------------------------------------------------------------

  /** What one iteration of the loop does to the register. */
  function ByteStep(crc: Word, d: Byte): Word {
    var c1 := Xor(Or(ShiftRight(crc, 8), ShiftLeft(crc, 8)), Widened(d));
    var c2 := Xor(c1, ShiftRight(LowByte(c1), 4));
    var c3 := Xor(c2, ShiftLeft(ShiftLeft(c2, 8), 4));
    Xor(c3, ShiftLeft(ShiftLeft(LowByte(c3), 4), 1))
  }

  function Crc(m: seq<Byte>): Word {
    if m == [] then Zeros(16) else ByteStep(Crc(m[..|m| - 1]), m[|m| - 1])
  }

  lemma CrcSnoc(m: seq<Byte>, d: Byte)
    ensures Crc(m + [d]) == ByteStep(Crc(m), d)
  {
    assert (m + [d])[..|m|] == m;
  }

  method FoldInByte(was: Word, d: Byte, ghost m: seq<Byte>) returns (crc: Word)
    requires was == Crc(m)
    ensures crc == Crc(m + [d])
  {
    CrcSnoc(m, d);
    crc := Or(ShiftRight(was, 8), ShiftLeft(was, 8));
    crc := Xor(crc, Widened(d));
    crc := Xor(crc, ShiftRight(LowByte(crc), 4));
    crc := Xor(crc, ShiftLeft(ShiftLeft(crc, 8), 4));
    crc := Xor(crc, ShiftLeft(ShiftLeft(LowByte(crc), 4), 1));
  }

  method ComputeCrc16(data: array<Byte>, start: nat, length: nat) returns (crc: Word)
    requires start + length <= data.Length
    ensures crc == Crc(data[start..start + length])
  {
    ghost var m := data[start..start + length];
    crc := Zeros(16);
    for i := 0 to length
      invariant crc == Crc(m[..i])
    {
      assert m[..i + 1] == m[..i] + [m[i]];
      crc := FoldInByte(crc, data[start + i], m[..i]);
    }
    assert m[..length] == m;
  }

  // ---------------------------------------------------------------------------
  // Long division by the generator
  // ---------------------------------------------------------------------------

  /** x^16 + x^12 + x^5 + 1, section 2 of ITU-T V.41. */
  function Generator(): (g: Poly)
    ensures |g| == 17 && forall i :: 0 <= i < 17 ==> g[i] == (i == 0 || i == 4 || i == 11 || i == 16)
  {
    seq(17, i requires 0 <= i < 17 => i == 0 || i == 4 || i == 11 || i == 16)
  }

  /** Schoolbook product of a polynomial with the generator. */
  function TimesGenerator(q: Poly): (p: Poly)
    ensures |p| == |q| + 16
  {
    if q == [] then Zeros(16)
    else
      var n := |q| - 1;
      Xor(TimesGenerator(q[..n]) + [false],
          Zeros(n) + if q[n] then Generator() else Zeros(17))
  }

  /** message * x^16 == quotient * generator + remainder */
  ghost predicate IsDivision(message: Poly, quotient: Poly, remainder: Word) {
    && |quotient| == |message|
    && message + Zeros(16) == Xor(TimesGenerator(quotient), Zeros(|message|) + remainder)
  }

  /** Bring one message bit into the partial remainder. */
  function BitStep(r: Word, b: bool): Word {
    Xor(r[1..] + [false], if r[0] != b then Generator()[1..] else Zeros(16))
  }

  function Remainder(message: Poly): Word {
    if message == [] then Zeros(16)
    else BitStep(Remainder(message[..|message| - 1]), message[|message| - 1])
  }

  // ---------------------------------------------------------------------------
  // The byte loop computes the remainder of the division
  // ---------------------------------------------------------------------------

  /** Four bit steps at once. */
  function NibbleStep(r: Word, n: Poly): Word
    requires |n| == 4
  {
    var t := Xor(r[..4], n);
    Xor(r[4..] + Zeros(4), Xor(Zeros(12) + t, Xor(Zeros(7) + t + Zeros(5), t + Zeros(12))))
  }

  // Each step, read off one bit at a time. The two lemmas that compose steps take the
  // intermediate words as parameters, so that only these equations are in scope.

  ghost predicate AfterBit(r: Word, b: bool, s: Word) {
    forall i {:trigger s[i]} :: 0 <= i < 16 ==>
      s[i] == ((i < 15 && r[i + 1]) != ((r[0] != b) && (i == 3 || i == 10 || i == 15)))
  }

  ghost predicate AfterNibble(r: Word, n: Poly, s: Word)
    requires |n| == 4
  {
    forall i {:trigger s[i]} :: 0 <= i < 16 ==>
      s[i] == ((i < 12 && r[i + 4]) !=
               ((i >= 12 && r[i - 12] != n[i - 12]) !=
                ((7 <= i < 11 && r[i - 7] != n[i - 7]) != (i < 4 && r[i] != n[i]))))
  }

  lemma BitStepBits(r: Word, b: bool)
    ensures AfterBit(r, b, BitStep(r, b))
  {
  }

  lemma NibbleStepBits(r: Word, n: Poly)
    requires |n| == 4
    ensures AfterNibble(r, n, NibbleStep(r, n))
  {
  }

  lemma FourBitSteps(r: Word, n: Poly, r1: Word, r2: Word, r3: Word, r4: Word)
    requires |n| == 4
    requires AfterBit(r, n[0], r1) && AfterBit(r1, n[1], r2) && AfterBit(r2, n[2], r3) && AfterBit(r3, n[3], r4)
    ensures AfterNibble(r, n, r4)
  {
  }

  lemma TwoNibbleSteps(r: Word, d: Poly, c1: Word, c2: Word, c3: Word, c4: Word, r1: Word, r2: Word)
    requires |d| == 8
    requires forall i {:trigger c1[i]} :: 0 <= i < 16 ==> c1[i] == if i < 8 then r[i + 8] else r[i - 8] != d[i - 8]
    requires forall i {:trigger c2[i]} :: 0 <= i < 16 ==> c2[i] == (c1[i] != (i >= 12 && c1[i - 4]))
    requires forall i {:trigger c3[i]} :: 0 <= i < 16 ==> c3[i] == (c2[i] != (i < 4 && c2[i + 12]))
    requires forall i {:trigger c4[i]} :: 0 <= i < 16 ==> c4[i] == (c3[i] != (3 <= i < 11 && c3[i + 5]))
    requires AfterNibble(r, d[..4], r1) && AfterNibble(r1, d[4..], r2)
    ensures c4 == r2
  {
  }

  /** The register after the four bits n, whichever way they are brought in. */
  lemma NibbleStepIsFourBitSteps(r: Word, n: Poly)
    requires |n| == 4
    ensures NibbleStep(r, n) == BitStep(BitStep(BitStep(BitStep(r, n[0]), n[1]), n[2]), n[3])
  {
    var r1 := BitStep(r, n[0]);
    var r2 := BitStep(r1, n[1]);
    var r3 := BitStep(r2, n[2]);
    var r4 := BitStep(r3, n[3]);
    BitStepBits(r, n[0]);
    BitStepBits(r1, n[1]);
    BitStepBits(r2, n[2]);
    BitStepBits(r3, n[3]);
    FourBitSteps(r, n, r1, r2, r3, r4);
    NibbleStepBits(r, n);
    SameAfterNibble(r, n, NibbleStep(r, n), r4);
  }

  lemma SameAfterNibble(r: Word, n: Poly, s: Word, t: Word)
    requires |n| == 4 && AfterNibble(r, n, s) && AfterNibble(r, n, t)
    ensures s == t
  {
  }

  lemma ByteStepIsTwoNibbleSteps(r: Word, d: Byte)
    ensures ByteStep(r, d) == NibbleStep(NibbleStep(r, ByteBits(d)[..4]), ByteBits(d)[4..])
  {
    var bits := ByteBits(d);
    var c1 := Xor(Or(ShiftRight(r, 8), ShiftLeft(r, 8)), Widened(d));
    var c2 := Xor(c1, ShiftRight(LowByte(c1), 4));
    var c3 := Xor(c2, ShiftLeft(ShiftLeft(c2, 8), 4));
    var r1 := NibbleStep(r, bits[..4]);
    NibbleStepBits(r, bits[..4]);
    NibbleStepBits(r1, bits[4..]);
    SwapBits(r, bits);
    FoldDownBits(c1);
    FoldUpBits(c2);
    FoldLowByteBits(c3);
    TwoNibbleSteps(r, bits, c1, c2, c3, ByteStep(r, d), r1, NibbleStep(r1, bits[4..]));
  }

  lemma SwapBits(r: Word, d: Poly)
    requires |d| == 8
    ensures var c := Xor(Or(ShiftRight(r, 8), ShiftLeft(r, 8)), Zeros(8) + d);
      forall i {:trigger c[i]} :: 0 <= i < 16 ==> c[i] == if i < 8 then r[i + 8] else r[i - 8] != d[i - 8]
  {
  }

  lemma FoldDownBits(c: Word)
    ensures var s := Xor(c, ShiftRight(LowByte(c), 4));
      forall i {:trigger s[i]} :: 0 <= i < 16 ==> s[i] == (c[i] != (i >= 12 && c[i - 4]))
  {
  }

  lemma FoldUpBits(c: Word)
    ensures var s := Xor(c, ShiftLeft(ShiftLeft(c, 8), 4));
      forall i {:trigger s[i]} :: 0 <= i < 16 ==> s[i] == (c[i] != (i < 4 && c[i + 12]))
  {
  }

  lemma FoldLowByteBits(c: Word)
    ensures var s := Xor(c, ShiftLeft(ShiftLeft(LowByte(c), 4), 1));
      forall i {:trigger s[i]} :: 0 <= i < 16 ==> s[i] == (c[i] != (3 <= i < 11 && c[i + 5]))
  {
  }

  /** Continue a division with more message bits. */
  function Continue(r: Word, bits: Poly): Word {
    if bits == [] then r else BitStep(Continue(r, bits[..|bits| - 1]), bits[|bits| - 1])
  }

  lemma {:induction false} ContinueConcat(r: Word, a: Poly, b: Poly)
    ensures Continue(r, a + b) == Continue(Continue(r, a), b)
  {
    if b == [] {
      assert a + b == a;
    } else {
      var n := |b| - 1;
      assert (a + b)[..|a + b| - 1] == a + b[..n];
      ContinueConcat(r, a, b[..n]);
    }
  }

  lemma {:induction false} RemainderContinues(bits: Poly)
    ensures Remainder(bits) == Continue(Zeros(16), bits)
  {
    if bits == [] {
    } else {
      RemainderContinues(bits[..|bits| - 1]);
    }
  }

  lemma ContinueFour(r: Word, n: Poly)
    requires |n| == 4
    ensures Continue(r, n) == NibbleStep(r, n)
  {
    assert n[..3][..2] == n[..2] && n[..2][..1] == n[..1] && n[..1][..0] == [];
    assert Continue(r, n[..1]) == BitStep(r, n[0]);
    assert Continue(r, n[..2]) == BitStep(BitStep(r, n[0]), n[1]);
    assert Continue(r, n[..3]) == BitStep(BitStep(BitStep(r, n[0]), n[1]), n[2]);
    NibbleStepIsFourBitSteps(r, n);
  }

  lemma ContinueByte(r: Word, d: Byte)
    ensures Continue(r, ByteBits(d)) == ByteStep(r, d)
  {
    var bits := ByteBits(d);
    assert bits == bits[..4] + bits[4..];
    ContinueConcat(r, bits[..4], bits[4..]);
    ContinueFour(r, bits[..4]);
    ContinueFour(Continue(r, bits[..4]), bits[4..]);
    ByteStepIsTwoNibbleSteps(r, d);
  }

  /** The byte loop leaves the remainder of long division, for a message of any length. */
  lemma {:induction false} CrcIsRemainder(m: seq<Byte>)
    ensures Crc(m) == Remainder(MessageBits(m))
  {
    if m == [] {
    } else {
      var n := |m| - 1;
      CrcIsRemainder(m[..n]);
      RemainderContinues(MessageBits(m[..n]));
      RemainderContinues(MessageBits(m));
      ContinueConcat(Zeros(16), MessageBits(m[..n]), ByteBits(m[n]));
      ContinueByte(Crc(m[..n]), m[n]);
    }
  }

  // ---------------------------------------------------------------------------
  // Long division is division: the remainder exists and is the only one
  // ---------------------------------------------------------------------------

  function Quotient(message: Poly): (q: Poly)
    ensures |q| == |message|
  {
    if message == [] then []
    else
      var n := |message| - 1;
      Quotient(message[..n]) + [Remainder(message[..n])[0] != message[n]]
  }

  lemma TimesGeneratorBits(q: Poly, c: bool)
    ensures var p := TimesGenerator(q + [c]);
      forall i {:trigger p[i]} :: 0 <= i < |q| + 17 ==>
        p[i] == ((i < |q| + 16 && TimesGenerator(q)[i]) != (|q| <= i && c && Generator()[i - |q|]))
  {
    assert (q + [c])[..|q|] == q;
  }

  /** Extending a division by one message bit and the quotient bit it forces. */
  lemma ExtendDivision(m: Poly, q: Poly, r: Word, b: bool)
    requires IsDivision(m, q, r)
    ensures IsDivision(m + [b], q + [r[0] != b], BitStep(r, b))
  {
    var n := |m|;
    TimesGeneratorBits(q, r[0] != b);
    BitStepBits(r, b);
    var left := m + [b] + Zeros(16);
    var right := Xor(TimesGenerator(q + [r[0] != b]), Zeros(n + 1) + BitStep(r, b));
    var shorter := Xor(TimesGenerator(q), Zeros(n) + r);
    forall i | 0 <= i < n + 17 ensures left[i] == right[i] {
      if i < n + 16 { assert (m + Zeros(16))[i] == shorter[i]; }
    }
  }

  /** A division of a message extended by one bit restricts to one of the message. */
  lemma RestrictDivision(m: Poly, b: bool, q: Poly, c: bool, r: Word) returns (before: Word)
    requires IsDivision(m + [b], q + [c], r)
    ensures IsDivision(m, q, before)
    ensures c == (before[0] != b) && r == BitStep(before, b)
  {
    var n := |m|;
    TimesGeneratorBits(q, c);
    before := TimesGenerator(q)[n..];
    var left := m + [b] + Zeros(16);
    var right := Xor(TimesGenerator(q + [c]), Zeros(n + 1) + r);
    assert left == right;
    forall i | 0 <= i < n + 16 ensures (m + Zeros(16))[i] == Xor(TimesGenerator(q), Zeros(n) + before)[i] {
      if i < n { assert left[i] == right[i]; }
    }
    assert left[n] == right[n];
    BitStepBits(before, b);
    var after := BitStep(before, b);
    forall i | 0 <= i < 16 ensures r[i] == after[i] {
      assert left[n + 1 + i] == right[n + 1 + i];
    }
  }

  lemma {:induction false} RemainderDivides(m: Poly)
    ensures IsDivision(m, Quotient(m), Remainder(m))
  {
    if m == [] {
      assert m + Zeros(16) == Xor(TimesGenerator([]), Zeros(0) + Zeros(16));
    } else {
      var n := |m| - 1;
      RemainderDivides(m[..n]);
      ExtendDivision(m[..n], Quotient(m[..n]), Remainder(m[..n]), m[n]);
      assert m == m[..n] + [m[n]];
    }
  }

  lemma {:induction false} RemainderIsUnique(m: Poly, q: Poly, r: Word)
    requires IsDivision(m, q, r)
    ensures q == Quotient(m) && r == Remainder(m)
    decreases |m|
  {
    if m == [] {
      var left, right := m + Zeros(16), Xor(TimesGenerator(q), Zeros(0) + r);
      forall i | 0 <= i < 16 ensures r[i] == Zeros(16)[i] {
        assert left[i] == right[i];
      }
    } else {
      var n := |m| - 1;
      assert m == m[..n] + [m[n]] && q == q[..n] + [q[n]];
      var before := RestrictDivision(m[..n], m[n], q[..n], q[n], r);
      RemainderIsUnique(m[..n], q[..n], before);
    }
  }

  /** The loop's result is the remainder of message * x^16 by the generator, and nothing else is. */
  lemma CrcIsThePolynomialRemainder(m: seq<Byte>, r: Word)
    ensures (exists q :: IsDivision(MessageBits(m), q, r)) <==> r == Crc(m)
  {
    CrcIsRemainder(m);
    RemainderDivides(MessageBits(m));
    forall q | IsDivision(MessageBits(m), q, r) ensures r == Crc(m) {
      RemainderIsUnique(MessageBits(m), q, r);
    }
  }
}
