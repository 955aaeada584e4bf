/** Errors of few bits: the powers of x modulo the generator come round after exactly 32767
    steps, so that two flipped bits are detected unless that far apart. */
module CrcOrder {
  import opened Bytes
  import opened Crc16
  import opened CrcDetection

  const ORDER: nat := 32767

  // Bits of words written out.
  const I: bool := true
  const O: bool := false

  // ---------------------------------------------------------------------------
  // Powers of x
  // ---------------------------------------------------------------------------

  function One(): Word {
    Zeros(15) + [true]
  }

  /** x^n modulo the generator. */
  function XPower(n: nat): Word {
    if n == 0 then One() else BitStep(XPower(n - 1), false)
  }

  /** Times x, bit by bit. */
  function Shifted(w: Word): (s: Word) {
    [w[1], w[2], w[3], w[4] != w[0], w[5], w[6], w[7], w[8], w[9], w[10], w[11] != w[0],
     w[12], w[13], w[14], w[15], w[0]]
  }

  lemma ShiftedIsBitStep(w: Word)
    ensures Shifted(w) == BitStep(w, false)
  {
  }

  /** Squaring is linear: the coefficient of x^i goes to x^2i. */
  function Squared(w: Word): (s: Word) {
    [
      w[2],
      ((w[2] != w[4]) != w[6]) != w[8],
      w[3],
      ((w[3] != w[5]) != w[7]) != w[9],
      (w[0] != w[2]) != w[4],
      (w[0] != w[2]) != w[10],
      (w[1] != w[3]) != w[5],
      ((w[0] != w[1]) != w[3]) != w[11],
      ((w[0] != w[2]) != w[4]) != w[6],
      (((w[0] != w[1]) != w[2]) != w[4]) != w[12],
      ((w[1] != w[3]) != w[5]) != w[7],
      ((w[1] != w[3]) != w[5]) != w[13],
      w[0],
      (((w[0] != w[2]) != w[4]) != w[6]) != w[14],
      w[1],
      (((w[1] != w[3]) != w[5]) != w[7]) != w[15]
    ]
  }

  lemma SquaredOfShifted(w: Word)
    ensures Squared(Shifted(w)) == Shifted(Shifted(Squared(w)))
  {
  }

  lemma {:induction false} SquaredPower(n: nat)
    ensures Squared(XPower(n)) == XPower(2 * n)
  {
    hide Squared, Shifted, BitStep, One;
    if n == 0 {
      SquaredOfOne();
    } else {
      SquaredPower(n - 1);
      SquaredOfShifted(XPower(n - 1));
      ShiftedIsBitStep(XPower(n - 1));
      ShiftedIsBitStep(XPower(2 * n - 2));
      ShiftedIsBitStep(XPower(2 * n - 1));
    }
  }

  lemma SquaredOfOne()
    ensures Squared(One()) == One()
  {
  }

  /** From one power to the one twice or twice and one as high. */
  lemma Doubled(n: nat, w: Word)
    requires XPower(n) == w
    ensures XPower(2 * n) == Squared(w) && XPower(2 * n + 1) == Shifted(Squared(w))
  {
    hide Squared, Shifted, BitStep;
    SquaredPower(n);
    ShiftedIsBitStep(Squared(w));
  }

  // Powers of x along the bits of 217, 1057, 4681 and 32768, highest bit first: each exponent is
  // twice another one, or one more.

  function ChainLow(n: nat): Poly {
    match n
    case 1 => [O, O, O, O, O, O, O, O, O, O, O, O, O, O, I, O]
    case 2 => [O, O, O, O, O, O, O, O, O, O, O, O, O, I, O, O]
    case 3 => [O, O, O, O, O, O, O, O, O, O, O, O, I, O, O, O]
    case 4 => [O, O, O, O, O, O, O, O, O, O, O, I, O, O, O, O]
    case 6 => [O, O, O, O, O, O, O, O, O, I, O, O, O, O, O, O]
    case 8 => [O, O, O, O, O, O, O, I, O, O, O, O, O, O, O, O]
    case 9 => [O, O, O, O, O, O, I, O, O, O, O, O, O, O, O, O]
    case 13 => [O, O, I, O, O, O, O, O, O, O, O, O, O, O, O, O]
    case 16 => [O, O, O, I, O, O, O, O, O, O, I, O, O, O, O, I]
    case 18 => [O, I, O, O, O, O, O, O, I, O, O, O, O, I, O, O]
    case 27 => [I, O, O, O, I, O, O, I, I, O, I, O, I, O, O, I]
    case 32 => [O, O, I, I, O, I, I, I, O, O, I, I, O, O, O, O]
    case 33 => [O, I, I, O, I, I, I, O, O, I, I, O, O, O, O, O]
    case _ => Zeros(16)
  }

  function ChainMiddle(n: nat): Poly {
    match n
    case 36 => [O, I, O, O, O, O, I, I, O, I, I, O, O, O, I, I]
    case 54 => [O, O, O, I, O, O, O, I, O, I, I, O, I, O, O, O]
    case 64 => [I, O, I, I, I, O, O, O, O, I, I, O, O, O, O, I]
    case 66 => [I, I, O, O, O, O, O, I, I, I, O, O, O, I, I, O]
    case 73 => [I, O, O, O, I, I, I, I, I, O, I, O, O, I, I, O]
    case 108 => [O, O, I, I, O, I, I, I, O, I, O, I, O, O, O, O]
    case 128 => [I, O, I, O, I, I, I, O, I, I, I, I, I, I, O, O]
    case 132 => [O, I, O, O, I, I, I, O, I, O, O, O, I, O, I, O]
    case 146 => [O, I, O, O, O, O, I, I, I, O, O, O, I, O, O, O]
    case 217 => [O, I, O, O, I, O, O, O, I, I, I, O, O, O, I, I]
    case 256 => [I, O, O, O, I, I, I, O, O, O, I, O, I, O, O, I]
    case 264 => [O, I, O, I, I, O, O, I, O, I, O, O, O, I, I, O]
    case _ => Zeros(16)
  }

  function ChainHigh(n: nat): Poly {
    match n
    case 292 => [O, O, O, I, O, O, I, I, I, O, O, I, O, I, I, O]
    case 512 => [O, O, O, I, O, O, I, I, I, I, I, I, I, I, O, O]
    case 528 => [O, I, I, I, I, O, O, O, I, O, I, I, O, O, I, I]
    case 585 => [O, I, O, O, O, I, O, I, O, O, O, O, O, O, O, O]
    case 1024 => [O, O, I, I, O, I, I, O, I, I, O, O, O, I, O, O]
    case 1057 => [I, I, I, I, O, O, I, O, I, O, I, O, I, I, I, I]
    case 1170 => [O, O, O, O, O, O, O, I, O, I, I, O, O, O, I, I]
    case 2048 => [I, I, I, I, I, I, O, I, O, I, O, I, O, O, O, O]
    case 2340 => [O, O, O, O, O, I, O, O, O, O, I, O, O, I, O, O]
    case 4096 => [I, O, I, O, I, O, I, O, I, O, O, I, I, I, I, O]
    case 4681 => [O, O, I, O, I, I, O, O, O, I, O, O, O, O, I, O]
    case 8192 => [I, O, O, O, I, O, O, O, O, O, O, I, I, I, O, O]
    case 16384 => [O, I, O, O, O, I, O, O, O, I, O, I, I, O, O, O]
    case 32768 => [O, O, O, O, O, O, O, O, O, O, O, O, O, O, I, O]
    case _ => Zeros(16)
  }

  predicate InChain(n: nat) {
    n in {1, 2, 3, 4, 6, 8, 9, 13, 16, 18, 27, 32, 33, 36, 54, 64, 66, 73, 108, 128, 132, 146, 217, 256, 264,
          292, 512, 528, 585, 1024, 1057, 1170, 2048, 2340, 4096, 4681, 8192, 16384, 32768}
  }

  function Chain(n: nat): Poly {
    if n <= 33 then ChainLow(n) else if n <= 264 then ChainMiddle(n) else ChainHigh(n)
  }

  ghost predicate IsStep(n: nat, before: Poly, after: Poly) {
    && |before| == |after| == 16
    && after == if n % 2 == 0 then Squared(before) else Shifted(Squared(before))
  }

  lemma ChainLowStep(n: nat)
    requires n in {2, 3, 4, 6, 8, 9, 13, 16, 18, 27, 32, 33}
    ensures InChain(n / 2) && IsStep(n, Chain(n / 2), ChainLow(n))
  {
  }

  lemma ChainMiddleStep(n: nat)
    requires n in {36, 54, 64, 66, 73, 108, 128, 132, 146, 217, 256, 264}
    ensures InChain(n / 2) && IsStep(n, Chain(n / 2), ChainMiddle(n))
  {
  }

  lemma ChainHighStep(n: nat)
    requires n in {292, 512, 528, 585, 1024, 1057, 1170, 2048, 2340, 4096, 4681, 8192, 16384, 32768}
    ensures InChain(n / 2) && IsStep(n, Chain(n / 2), ChainHigh(n))
  {
  }

  lemma ChainStep(n: nat)
    requires InChain(n) && n > 1
    ensures InChain(n / 2) && IsStep(n, Chain(n / 2), Chain(n))
  {
    hide IsStep, ChainLow, ChainMiddle, ChainHigh;
    if n <= 33 {
      ChainLowStep(n);
    } else if n <= 264 {
      ChainMiddleStep(n);
    } else {
      ChainHighStep(n);
    }
  }

  lemma {:induction false} ChainIsPower(n: nat)
    requires InChain(n)
    ensures XPower(n) == Chain(n)
  {
    hide Chain, BitStep, Squared, Shifted, InChain, XPower;
    if n <= 1 {
      FirstOfChain(n);
    } else {
      ChainStep(n);
      ChainIsPower(n / 2);
      Doubled(n / 2, Chain(n / 2));
    }
  }

  lemma FirstOfChain(n: nat)
    requires InChain(n) && n <= 1
    ensures XPower(n) == Chain(n)
  {
    ShiftedIsBitStep(One());
  }

  // ---------------------------------------------------------------------------
  // The order of x
  // ---------------------------------------------------------------------------

  /** Multiplying by x loses nothing. */
  lemma BitStepInjective(r: Word, s: Word)
    requires BitStep(r, false) == BitStep(s, false)
    ensures r == s
  {
    ShiftedIsBitStep(r);
    ShiftedIsBitStep(s);
    var a, b := Shifted(r), Shifted(s);
    assert a[15] == b[15] && a[3] == b[3] && a[10] == b[10];
    forall i | 0 <= i < 16 ensures r[i] == s[i] {
      if i > 0 { assert a[i - 1] == b[i - 1]; }
    }
  }

  lemma {:induction false} PowersCancel(a: nat, b: nat)
    ensures XPower(a + b) == XPower(b) <==> XPower(a) == One()
  {
    hide BitStep;
    if b == 0 {
    } else {
      PowersCancel(a, b - 1);
      if XPower(a + b) == XPower(b) {
        BitStepInjective(XPower(a + b - 1), XPower(b - 1));
      }
    }
  }

  /** n is a period of the powers of x. */
  ghost predicate IsPeriod(n: nat) {
    XPower(n) == One()
  }

  lemma PeriodsAdd(a: nat, b: nat)
    requires IsPeriod(a)
    ensures IsPeriod(a + b) <==> IsPeriod(b)
  {
    PowersCancel(a, b);
    PowersCancel(b, a);
  }

  lemma {:induction false} PeriodsMultiply(a: nat, k: nat)
    requires IsPeriod(a)
    ensures IsPeriod(k * a)
  {
    if k == 0 {
    } else {
      PeriodsMultiply(a, k - 1);
      PeriodsAdd(a, (k - 1) * a);
      assert k * a == a + (k - 1) * a;
    }
  }

  lemma QuotientAndRest(n: nat, a: nat)
    requires a > 0
    ensures n == n / a * a + n % a
  {
  }

  lemma PeriodsOfRemainder(a: nat, n: nat)
    requires a > 0 && IsPeriod(a)
    ensures IsPeriod(n) <==> IsPeriod(n % a)
  {
    hide IsPeriod;
    PeriodsMultiply(a, n / a);
    PeriodsAdd(n / a * a, n % a);
    QuotientAndRest(n, a);
  }

  lemma OrderIsPeriod(n: nat)
    requires n == ORDER
    ensures IsPeriod(n)
  {
    hide XPower, Squared;
    ChainIsPower(n + 1);
    ChainIsPower(1);
    PowersCancel(n, 1);
  }

  /** The divisors of 32767, which is 7 * 31 * 151, up to its square root. */
  lemma SmallDivisors(s: nat, q: nat)
    requires s * q == ORDER && 0 < s <= 181
    ensures s == 1 || s == 7 || s == 31 || s == 151
  {
  }

  lemma ProductIsLarge(r: nat, m: nat)
    requires r > 181 && m > 181
    ensures r * m > ORDER
  {
    assert (r - 182) * (m - 182) >= 0;
  }

  lemma OneIsSmall(r: nat, m: nat)
    requires r * m == ORDER
    ensures r <= 181 || m <= 181
  {
    if r > 181 && m > 181 { ProductIsLarge(r, m); }
  }

  /** A proper divisor divides 217, 1057 or 4681. */
  lemma ProperDivisor(r: nat, m: nat) returns (k: nat)
    requires r * m == ORDER && m >= 2
    ensures k * r == 217 || k * r == 1057 || k * r == 4681
  {
    OneIsSmall(r, m);
    if m <= 181 {
      SmallDivisors(m, r);
      k := 1;
    } else {
      SmallDivisors(r, m);
      k := if r == 1 then 217 else if r == 7 then 31 else 7;
    }
  }

  lemma OtherThanOne(n: nat)
    requires n == 217 || n == 1057 || n == 4681
    ensures Chain(n) != One()
  {
    assert !One()[1] && !One()[0] && !One()[2];
  }

  lemma NotThesePeriods(n: nat)
    requires n == 217 || n == 1057 || n == 4681
    ensures !IsPeriod(n)
  {
    hide XPower, Chain;
    ChainIsPower(n);
    OtherThanOne(n);
  }

  lemma NoDivisorIsPeriod(r: nat, m: nat)
    requires r * m == ORDER && m >= 2
    ensures !IsPeriod(r)
  {
    hide IsPeriod;
    var k := ProperDivisor(r, m);
    NotThesePeriods(k * r);
    if IsPeriod(r) { PeriodsMultiply(r, k); }
  }

  lemma {:induction false} NoSmallerPeriod(r: nat, order: nat)
    requires order == ORDER && 0 < r < order
    ensures !IsPeriod(r)
    decreases r
  {
    hide IsPeriod;
    OrderIsPeriod(order);
    QuotientAndRest(order, r);
    var rest := order % r;
    if rest == 0 {
      NoDivisorIsPeriod(r, order / r);
    } else {
      NoSmallerPeriod(rest, order);
      if IsPeriod(r) { PeriodsOfRemainder(r, order); }
    }
  }

  /** The powers of x come round exactly at the multiples of 32767. */
  lemma PeriodIff(n: nat)
    ensures XPower(n) == One() <==> n % ORDER == 0
  {
    var order := ORDER;
    OrderIsPeriod(order);
    PeriodsOfRemainder(order, n);
    if n % order > 0 { NoSmallerPeriod(n % order, order); }
  }

  // ---------------------------------------------------------------------------
  // Two flipped bits
  // ---------------------------------------------------------------------------

  ghost predicate IsTwoBits(p: Poly, i: nat, j: nat) {
    i < j < |p| && forall k :: 0 <= k < |p| ==> (p[k] <==> k == i || k == j)
  }

  lemma {:induction false} ShiftedPower(n: nat, z: Poly)
    requires AllZero(z)
    ensures Continue(XPower(n), z) == XPower(n + |z|)
  {
    if z == [] {
    } else {
      ShiftedPower(n, z[..|z| - 1]);
    }
  }

  lemma {:induction false} ZerosStayZero(z: Poly)
    requires AllZero(z)
    ensures Continue(Zeros(16), z) == Zeros(16)
  {
    ZerosChangeNothing(Zeros(16), z);
  }

  /** A lone bit leaves x^16. */
  lemma BitLeavesPower(n: nat)
    requires n == 16
    ensures BitStep(Zeros(16), true) == XPower(n)
  {
    hide XPower;
    ChainIsPower(n);
    assert BitStep(Zeros(16), true) == Chain(16);
  }

  lemma TwoBitsParts(p: Poly, i: nat, j: nat)
    requires IsTwoBits(p, i, j)
    ensures p == p[..i] + [true] + p[i + 1..j] + [true] + p[j + 1..]
    ensures AllZero(p[..i]) && AllZero(p[i + 1..j]) && AllZero(p[j + 1..])
  {
  }

  lemma ContinueParts(a: Poly, b: Poly, c: Poly)
    ensures Continue(Zeros(16), a + [true] + b + [true] + c)
         == Continue(BitStep(Continue(BitStep(Continue(Zeros(16), a), true), b), true), c)
  {
    var r := Zeros(16);
    ContinueConcat(r, a + [true] + b + [true], c);
    ContinueConcat(r, a + [true] + b, [true]);
    ContinueConcat(r, a + [true], b);
    ContinueConcat(r, a, [true]);
    OneStep(Continue(r, a));
    OneStep(Continue(r, a + [true] + b));
    hide BitStep, Continue;
  }

  lemma OneStep(r: Word)
    ensures Continue(r, [true]) == BitStep(r, true)
  {
    assert [true][..0] == [];
  }

  /** A set bit d - 1 zeros after another leaves x^(16 + d) + x^16. */
  lemma SecondBit(d: nat, n: nat)
    requires d > 0 && n == 16
    ensures BitStep(XPower(n + d - 1), true) == Xor(XPower(n + d), XPower(n))
  {
    hide BitStep, XPower;
    BitLeavesPower(n);
    NextPower(n + d - 1);
    var w := XPower(n + d - 1);
    BitStepXor(w, Zeros(16), false, true);
    assert Xor(w, Zeros(16)) == w;
  }

  lemma NextPower(n: nat)
    ensures XPower(n + 1) == BitStep(XPower(n), false)
  {
  }

  /** The generator divides the difference of two bits exactly if their distance is a multiple
      of 32767. */
  lemma TwoBitRemainderIff(p: Poly, i: nat, j: nat)
    requires IsTwoBits(p, i, j)
    ensures Remainder(p) == Zeros(16) <==> (j - i) % ORDER == 0
  {
    hide XPower, BitStep, Continue, Remainder, Xor, AllZero;
    var n, d, b, c := 16, j - i, p[i + 1..j], p[j + 1..];
    TwoBitsParts(p, i, j);
    RemainderContinues(p);
    ContinueParts(p[..i], b, c);
    ZerosStayZero(p[..i]);
    BitLeavesPower(n);
    ShiftedPower(n, b);
    SecondBit(d, n);
    ZerosChangeNothing(Xor(XPower(n + d), XPower(n)), c);
    XorIsZeroIffEqual(XPower(n + d), XPower(n));
    PowersCancel(d, n);
    PeriodIff(d);
  }

  /** Two flipped bits of an accepted string go undetected exactly if they are a multiple of
      32767 bits apart. */
  lemma TwoBitErrorIff(m: seq<Byte>, received: seq<Byte>, i: nat, j: nat)
    requires |m| == |received| && Crc(m) == Zeros(16)
    requires IsTwoBits(Difference(m, received), i, j)
    ensures Crc(received) == Zeros(16) <==> (j - i) % ORDER == 0
  {
    hide Crc, Remainder, Difference, IsTwoBits;
    TwoBitRemainderIff(Difference(m, received), i, j);
    UndetectedIff(m, received);
  }

  // ---------------------------------------------------------------------------
  // Up to three flipped bits
  // ---------------------------------------------------------------------------

  lemma {:induction false} CountSnoc(p: Poly, b: bool)
    ensures CountSet(p + [b]) == CountSet(p) + if b then 1 else 0
  {
    CountSetConcat(p, [b]);
    assert [b][1..] == [];
  }

  lemma {:induction false} OddIsOddCount(p: Poly)
    ensures Odd(p) <==> CountSet(p) % 2 == 1
  {
    if p == [] {
    } else {
      var n := |p| - 1;
      assert p == p[..n] + [p[n]];
      OddIsOddCount(p[..n]);
      CountSnoc(p[..n], p[n]);
    }
  }

  lemma {:induction false} NothingCounted(p: Poly)
    requires CountSet(p) == 0
    ensures AllZero(p)
  {
    if p == [] {
    } else {
      NothingCounted(p[1..]);
      assert forall i :: 1 <= i < |p| ==> p[i] == p[1..][i - 1];
    }
  }

  lemma {:induction false} OneCounted(p: Poly) returns (i: nat)
    requires CountSet(p) == 1
    ensures i < |p| && forall k :: 0 <= k < |p| ==> (p[k] <==> k == i)
  {
    assert forall k :: 1 <= k < |p| ==> p[k] == p[1..][k - 1];
    if p[0] {
      NothingCounted(p[1..]);
      i := 0;
    } else {
      var at := OneCounted(p[1..]);
      i := at + 1;
    }
  }

  lemma {:induction false} TwoCounted(p: Poly) returns (i: nat, j: nat)
    requires CountSet(p) == 2
    ensures IsTwoBits(p, i, j)
  {
    assert forall k :: 1 <= k < |p| ==> p[k] == p[1..][k - 1];
    if p[0] {
      var at := OneCounted(p[1..]);
      i, j := 0, at + 1;
    } else {
      var a, b := TwoCounted(p[1..]);
      i, j := a + 1, b + 1;
    }
  }

  /** In any packet the framer can hold, indeed up to 4095 bytes, flipping one, two or three
      bits of an accepted string makes the zero test fail. */
  lemma ThreeBitErrorIsDetected(m: seq<Byte>, received: seq<Byte>)
    requires |m| == |received| <= 4095 && Crc(m) == Zeros(16)
    requires 1 <= CountSet(Difference(m, received)) <= 3
    ensures Crc(received) != Zeros(16)
  {
    hide Crc, CountSet, IsTwoBits, Xor;
    var e := Difference(m, received);
    OddIsOddCount(e);
    if CountSet(e) == 2 {
      var i, j := TwoCounted(e);
      TwoBitsWithin(e, i, j);
      TwoBitErrorIff(m, received, i, j);
    } else {
      OddErrorIsDetected(m, received);
    }
  }

  lemma TwoBitsWithin(p: Poly, i: nat, j: nat)
    requires IsTwoBits(p, i, j) && |p| <= ORDER
    ensures (j - i) % ORDER != 0
  {
  }
}
