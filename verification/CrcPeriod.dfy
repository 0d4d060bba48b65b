/** The period of the CRC-16 register of applications/normal_calc.c, and with it
    which errors of two bits the checksum finds. */
module CrcPeriod {
  import opened Crc16

  /** The period of the register's shift: 7 * 31 * 151. */
  const PERIOD: nat := 32767

  /** Every register value is a sum of shifts of this one. */
  const TOP: bv16 := 0x8000

  lemma {:induction false} StepsAdd(s: bv16, m: nat, n: nat)
    ensures Steps(s, m + n) == Steps(Steps(s, m), n)
    decreases m
  {
    hide BitStep;
    if m > 0 { StepsAdd(BitStep(s), m - 1, n); }
  }

  // --- Multiplying the numbers of shifts ------------------------------------------------

  /** BitStep in one expression. */
  function Shift(s: bv16): bv16 {
    (s >> 1) ^ (if s & 1 == 1 then 0xA001 else 0)
  }

  /** One step of Horner's rule: a shift, and b if the bit is set. */
  function Horner(acc: bv16, bit: bool, b: bv16): bv16 {
    (acc >> 1) ^ (if acc & 1 == 1 then 0xA001 else 0) ^ (if bit then b else 0)
  }

  function Quad(acc: bv16, a: bv16, b: bv16): bv16 {
    Horner(Horner(Horner(Horner(acc, a & 1 == 1, b), a & 2 == 2, b), a & 4 == 4, b), a & 8 == 8, b)
  }

  /** The shifts that lead from TOP to a, applied to b. */
  function Mul(a: bv16, b: bv16): bv16 {
    Quad(Quad(Quad(Quad(0, a, b), a >> 4, b), a >> 8, b), a >> 12, b)
  }

  lemma HornerIs(acc: bv16, bit: bool, b: bv16)
    ensures Horner(acc, bit, b) == Xor(BitStep(acc), if bit then b else 0)
  {
    hide BitStep, Xor, Shift, Horner;
    ShiftIs(acc);
    HornerShift(acc, bit, b);
  }

  lemma HornerShift(acc: bv16, bit: bool, b: bv16)
    ensures Horner(acc, bit, b) == Xor(Shift(acc), if bit then b else 0)
  {
  }

  lemma ShiftIs(s: bv16)
    ensures Shift(s) == BitStep(s)
  {
    hide BitStep;
    if Odd(s) { OddShift(s); } else { EvenShift(s); }
  }

  lemma OddShift(s: bv16)
    requires Odd(s)
    ensures BitStep(s) == (s >> 1) ^ 0xA001
  {
  }

  lemma EvenShift(s: bv16)
    requires !Odd(s)
    ensures BitStep(s) == (s >> 1) ^ 0
  {
  }

  lemma ZeroStays()
    ensures BitStep(0) == 0
  {
  }

  lemma HornerShifts(acc: bv16, bit: bool, b: bv16)
    ensures Horner(BitStep(acc), bit, BitStep(b)) == BitStep(Horner(acc, bit, b))
  {
    ZeroStays();
    hide BitStep, Xor, Horner;
    HornerIs(acc, bit, b);
    HornerIs(BitStep(acc), bit, BitStep(b));
    BitStepXor(BitStep(acc), if bit then b else 0);
  }

  lemma QuadShifts(acc: bv16, a: bv16, b: bv16)
    ensures Quad(BitStep(acc), a, BitStep(b)) == BitStep(Quad(acc, a, b))
  {
    hide BitStep, Horner;
    var x := Horner(acc, a & 1 == 1, b);
    var y := Horner(x, a & 2 == 2, b);
    var z := Horner(y, a & 4 == 4, b);
    HornerShifts(acc, a & 1 == 1, b);
    HornerShifts(x, a & 2 == 2, b);
    HornerShifts(y, a & 4 == 4, b);
    HornerShifts(z, a & 8 == 8, b);
  }

  lemma MulShifts(a: bv16, b: bv16)
    ensures Mul(a, BitStep(b)) == BitStep(Mul(a, b))
  {
    ZeroStays();
    hide BitStep, Quad;
    var x := Quad(0, a, b);
    var y := Quad(x, a >> 4, b);
    var z := Quad(y, a >> 8, b);
    QuadShifts(0, a, b);
    QuadShifts(x, a >> 4, b);
    QuadShifts(y, a >> 8, b);
    QuadShifts(z, a >> 12, b);
  }

  lemma MulTop(a: bv16)
    ensures Mul(a, TOP) == a
  {
  }

  /** Multiplying adds the numbers of shifts. */
  lemma {:induction false} MulSteps(m: nat, n: nat)
    ensures Mul(Steps(TOP, m), Steps(TOP, n)) == Steps(TOP, m + n)
    decreases n
  {
    hide BitStep, Mul;
    if n == 0 {
      MulTop(Steps(TOP, m));
    } else {
      MulSteps(m, n - 1);
      StepsAdd(TOP, n - 1, 1);
      StepsAdd(TOP, m + n - 1, 1);
      MulShifts(Steps(TOP, m), Steps(TOP, n - 1));
    }
  }

  lemma Product(m: nat, n: nat, c: bv16, d: bv16, e: bv16)
    requires Steps(TOP, m) == c && Steps(TOP, n) == d && Mul(c, d) == e
    ensures Steps(TOP, m + n) == e
  {
    hide Mul, Steps;
    MulSteps(m, n);
  }

  // --- The period ---------------------------------------------------------------------------

  lemma SmallPowers()
    ensures Steps(TOP, 1) == 0x4000 && Steps(TOP, 8) == 0x0080 && Steps(TOP, 9) == 0x0040
  {
    assert Steps(TOP, 8) == 0x0080;
    StepsAdd(TOP, 8, 1);
  }

  /** By repeated squaring. */
  lemma Squares512()
    ensures Steps(TOP, 16) == 0xA001 && Steps(TOP, 32) == 0xE801
    ensures Steps(TOP, 64) == 0xC881 && Steps(TOP, 128) == 0x6080
    ensures Steps(TOP, 256) == 0x8801 && Steps(TOP, 512) == 0xE081
  {
    hide Steps;
    SmallPowers();
    Product(8, 8, 0x0080, 0x0080, 0xA001);
    Product(16, 16, 0xA001, 0xA001, 0xE801);
    Product(32, 32, 0xE801, 0xE801, 0xC881);
    Product(64, 64, 0xC881, 0xC881, 0x6080);
    Product(128, 128, 0x6080, 0x6080, 0x8801);
    Product(256, 256, 0x8801, 0x8801, 0xE081);
  }

  lemma Squares32768()
    ensures Steps(TOP, 1024) == 0x6800 && Steps(TOP, 2048) == 0x2880
    ensures Steps(TOP, 4096) == 0xA881 && Steps(TOP, 8192) == 0x4880
    ensures Steps(TOP, 16384) == 0x8081 && Steps(TOP, 32768) == 0x4000
  {
    hide Steps;
    Squares512();
    Product(512, 512, 0xE081, 0xE081, 0x6800);
    Product(1024, 1024, 0x6800, 0x6800, 0x2880);
    Product(2048, 2048, 0x2880, 0x2880, 0xA881);
    Product(4096, 4096, 0xA881, 0xA881, 0x4880);
    Product(8192, 8192, 0x4880, 0x4880, 0x8081);
    Product(16384, 16384, 0x8081, 0x8081, 0x4000);
  }

  lemma Power217()
    ensures Steps(TOP, 217) == 0x3E55
  {
    hide Steps;
    SmallPowers();
    Squares512();
    Product(128, 64, 0x6080, 0xC881, 0x6668);
    Product(192, 16, 0x6668, 0xA001, 0xEAAF);
    Product(208, 9, 0xEAAF, 0x0040, 0x3E55);
  }

  lemma Power1057()
    ensures Steps(TOP, 1057) == 0xCE41
  {
    hide Steps;
    SmallPowers();
    Squares512();
    Squares32768();
    Product(1024, 32, 0x6800, 0xE801, 0xDC81);
    Product(1056, 1, 0xDC81, 0x4000, 0xCE41);
  }

  lemma Power4681()
    ensures Steps(TOP, 4681) == 0x8C69
  {
    hide Steps;
    SmallPowers();
    Squares512();
    Squares32768();
    Product(4096, 512, 0xA881, 0xE081, 0x7A48);
    Product(4608, 64, 0x7A48, 0xC881, 0x51DE);
    Product(4672, 9, 0x51DE, 0x0040, 0x8C69);
  }

  /** k shifts lead back to where they started. */
  predicate Returns(k: nat) { Steps(TOP, k) == TOP }

  lemma PeriodReturns()
    ensures Returns(PERIOD)
  {
    hide Steps;
    Squares32768();
    SmallPowers();
    StepsAdd(TOP, PERIOD, 1);
    StepsAdd(TOP, 0, 1);
    assert Steps(Steps(TOP, PERIOD), 1) == Steps(TOP, 1);
    StepsInjective(Steps(TOP, PERIOD), TOP, 1);
  }

  lemma DivisorsDoNot()
    ensures !Returns(217) && !Returns(1057) && !Returns(4681)
  {
    hide Steps;
    Power217();
    Power1057();
    Power4681();
  }

  lemma ReturnsRest(a: nat, b: nat)
    requires Returns(a)
    ensures Returns(a + b) <==> Returns(b)
  {
    hide Steps;
    StepsAdd(TOP, a, b);
  }

  lemma {:induction false} ReturnsMultiple(a: nat, k: nat)
    requires Returns(a)
    ensures Returns(a * k)
    decreases k
  {
    if k == 0 {
      assert Steps(TOP, 0) == TOP;
      assert a * 0 == 0;
    } else {
      hide Returns;
      ReturnsMultiple(a, k - 1);
      ReturnsRest(a, a * (k - 1));
      assert a + a * (k - 1) == a * k;
    }
  }

  /** q * s shifts return, and so do q * p: then so do q times the remainder. */
  lemma ReturnsRemainder(q: nat, s: nat, p: nat)
    requires s > 0 && Returns(q * s) && Returns(q * p)
    ensures Returns(q * (p % s))
  {
    hide Returns;
    var k, r := p / s, p % s;
    assert q * p == (q * s) * k + q * r by {
      assert p == s * k + r;
      assert q * (s * k + r) == q * (s * k) + q * r;
      assert q * (s * k) == (q * s) * k;
    }
    ReturnsMultiple(q * s, k);
    ReturnsRest((q * s) * k, q * r);
  }

  /** p has no divisor between itself and 1. */
  ghost predicate Prime(p: nat) {
    p > 1 && forall s :: 1 < s < p ==> p % s != 0
  }

  lemma Primes()
    ensures Prime(7) && Prime(31) && Prime(151)
  {
  }

  /** Euclid's descent: from q * s returning, 0 < s < p, down to q itself. */
  lemma {:induction false} Descend(q: nat, s: nat, p: nat)
    requires Prime(p) && 0 < s < p && Returns(q * s) && Returns(q * p)
    ensures Returns(q)
    decreases s
  {
    hide Returns;
    if s == 1 {
      assert q * 1 == q;
    } else {
      ReturnsRemainder(q, s, p);
      Descend(q, p % s, p);
    }
  }

  /** A number of shifts that returns is a multiple of every prime whose cofactor
      does not return. */
  lemma PrimeDivides(p: nat, q: nat, m: nat)
    requires Prime(p) && p * q == PERIOD && !Returns(q) && Returns(m)
    ensures m % p == 0
  {
    hide Returns;
    PeriodReturns();
    assert q * p == PERIOD;
    ReturnsMultiple(m, q);
    assert m * q == q * m;
    ReturnsRemainder(q, p, m);
    if m % p != 0 { Descend(q, m % p, p); }
  }

  /** The shifts return exactly at the multiples of 32767. */
  lemma ReturnsIff(m: nat)
    ensures Returns(m) <==> m % PERIOD == 0
  {
    hide Returns;
    PeriodReturns();
    if m % PERIOD == 0 {
      ReturnsMultiple(PERIOD, m / PERIOD);
      assert PERIOD * (m / PERIOD) == m;
    }
    if Returns(m) {
      Primes();
      DivisorsDoNot();
      PrimeDivides(151, 217, m);
      PrimeDivides(31, 1057, m);
      PrimeDivides(7, 4681, m);
      ThreePrimes(m);
    }
  }

  lemma ThreePrimes(m: nat)
    requires m % 7 == 0 && m % 31 == 0 && m % 151 == 0
    ensures m % PERIOD == 0
  {
    var e := CommonMultiple(m, m / 7, m / 31, m / 151);
    assert m == PERIOD * e;
  }

  lemma CommonMultiple(m: int, a: int, b: int, c: int) returns (e: int)
    requires m == 7 * a && m == 31 * b && m == 151 * c
    ensures m == 32767 * e
  {
    var d := 9 * b - 2 * a;
    assert m == 217 * d;
    e := 23 * d - 16 * c;
  }

  // --- Errors of two bits --------------------------------------------------------------------

  /** Two registers fed the same bits drift apart by shifts of their difference. */
  lemma {:induction false} FeedCommon(s: bv16, t: bv16, u: seq<bool>)
    ensures Xor(Feed(s, u), Feed(t, u)) == Steps(Xor(s, t), |u|)
    decreases |u|
  {
    hide BitStep, Xor, In;
    if u != [] {
      var x := In(u[0]);
      BitStepXor(Xor(s, x), Xor(t, x));
      XorBoth(s, t, x);
      FeedCommon(BitStep(Xor(s, x)), BitStep(Xor(t, x)), u[1..]);
    }
  }

  lemma FlipDifference(s: bv16, t: bv16, bit: bool)
    ensures Xor(Xor(s, In(bit)), Xor(t, In(!bit))) == Xor(Xor(s, t), 1)
  {
  }

  lemma XorIsZero(s: bv16, t: bv16)
    ensures Xor(s, t) == 0 <==> s == t
  {
    hide Xor;
    XorSelf(t);
    if Xor(s, t) == 0 { XorCancel(s, t, t); }
  }

  lemma XorSelf(s: bv16)
    ensures Xor(s, s) == 0
  {
  }

  lemma XorOne(s: bv16)
    ensures Xor(s, 1) == 0 <==> s == 1
  {
  }

  /** One bit fed to each of two registers, a different one. */
  lemma FeedFlip(s: bv16, t: bv16, bit: bool)
    ensures Xor(Feed(s, [bit]), Feed(t, [!bit])) == BitStep(Xor(Xor(s, t), 1))
  {
    hide BitStep, Xor, In;
    FlipDifference(s, t, bit);
    BitStepXor(Xor(s, In(bit)), Xor(t, In(!bit)));
    assert [bit][1..] == [] && [!bit][1..] == [];
  }

  lemma FifteenShifts()
    ensures Steps(TOP, 15) == 1
  {
    SmallPowers();
    assert Steps(0x0080, 7) == 1;
    StepsAdd(TOP, 8, 7);
  }

  lemma OneReturns(n: nat)
    ensures Steps(1, n) == 1 <==> Returns(n)
  {
    FifteenShifts();
    hide BitStep, Steps;
    StepsAdd(TOP, 15, n);
    StepsAdd(TOP, n, 15);
    if Steps(1, n) == 1 { StepsInjective(Steps(TOP, n), TOP, 15); }
  }

  /** Two bit strings that differ in exactly two places lead to the same register
      iff the places are a multiple of 32767 apart. */
  lemma TwoFlips(s: bv16, p: seq<bool>, a: bool, m: seq<bool>, b: bool, q: seq<bool>)
    ensures Feed(s, p + [a] + m + [b] + q) == Feed(s, p + [!a] + m + [!b] + q) <==> (|m| + 1) % PERIOD == 0
  {
    hide BitStep, Xor, In, Feed, Steps, Returns;
    var t := Feed(s, p);
    var x, y := Feed(t, [a]), Feed(t, [!a]);
    var xm, ym := Feed(x, m), Feed(y, m);
    FeedFive(s, p, [a], m, [b], q);
    FeedFive(s, p, [!a], m, [!b], q);
    FeedFlip(t, t, a);
    XorSelf(t);
    FeedCommon(x, y, m);
    AfterFlip(|m|);
    FeedFlip(xm, ym, b);
    XorOne(Xor(xm, ym));
    XorIsZero(Feed(xm, [b]), Feed(ym, [!b]));
    BitStepZero(Xor(Xor(xm, ym), 1));
    OneReturns(|m| + 1);
    ReturnsIff(|m| + 1);
    if Feed(Feed(xm, [b]), q) == Feed(Feed(ym, [!b]), q) { FeedInjective(Feed(xm, [b]), Feed(ym, [!b]), q); }
  }

  lemma AfterFlip(n: nat)
    ensures Steps(BitStep(Xor(0, 1)), n) == Steps(1, n + 1)
  {
    assert Xor(0, 1) == 1;
  }

  lemma BitStepZero(s: bv16)
    ensures BitStep(s) == 0 <==> s == 0
  {
    ZeroStays();
    if BitStep(s) == 0 { BitStepInjective(s, 0); }
  }

  lemma FeedFive(s: bv16, p: seq<bool>, a: seq<bool>, m: seq<bool>, b: seq<bool>, q: seq<bool>)
    ensures Feed(s, p + a + m + b + q) == Feed(Feed(Feed(Feed(Feed(s, p), a), m), b), q)
  {
    hide Feed;
    FeedConcat(s, p + a + m + b, q);
    FeedConcat(s, p + a + m, b);
    SplitFeed(s, p, a, m);
  }

  /** The messages differ in bits i and j and in no other. */
  ghost predicate DifferInTwo(x: seq<bv8>, y: seq<bv8>, i: nat, j: nat) {
    && |x| == |y| && i < j < 8 * |x|
    && forall k :: 0 <= k < 8 * |x| ==> (Bits(x)[k] != Bits(y)[k] <==> k == i || k == j)
  }

  /** Two flipped bits are found iff they are not a multiple of 32767 apart. */
  lemma TwoBitErrors(init: bv16, x: seq<bv8>, y: seq<bv8>, i: nat, j: nat)
    requires DifferInTwo(x, y, i, j)
    ensures Crc(init, x) == Crc(init, y) <==> (j - i) % PERIOD == 0
  {
    hide Bits, BitSerial, Swap, Feed;
    var s, u, v := Swap(init), Bits(x), Bits(y);
    var p, m, q := u[..i], u[i + 1..j], u[j + 1..];
    assert u == p + [u[i]] + m + [u[j]] + q;
    assert v == p + [!u[i]] + m + [!u[j]] + q;
    TwoFlips(s, p, u[i], m, u[j], q);
    FeedBits(s, x);
    FeedBits(s, y);
    if Crc(init, x) == Crc(init, y) { SwapInjective(BitSerial(s, x), BitSerial(s, y)); }
  }

  function Zeros(n: nat): (z: seq<bv8>)
    ensures |z| == n && forall k :: 0 <= k < n ==> z[k] == 0
  {
    seq(n, _ => 0)
  }

  lemma {:induction false} BitsZeros(n: nat)
    ensures forall k :: 0 <= k < 8 * n ==> !Bits(Zeros(n))[k]
    decreases n
  {
    if n > 0 {
      BitsZeros(n - 1);
      assert Zeros(n)[1..] == Zeros(n - 1);
      ZeroByte();
    }
  }

  lemma ZeroByte()
    ensures Bits8(0) == [false, false, false, false, false, false, false, false]
    ensures Bits8(0x01) == [true, false, false, false, false, false, false, false]
    ensures Bits8(0x80) == [false, false, false, false, false, false, false, true]
  {
  }

  lemma BitsOfOne(b: bv8)
    ensures Bits([b]) == Bits8(b)
  {
    assert [b][1..] == [];
    assert Bits([b][1..]) == [];
  }

  /** 4096 zero bytes, and the same with the first and the last bit set, have the
      same CRC from every start value. */
  lemma TwoBitErrorsFail(init: bv16)
    ensures Crc(init, [0x01] + Zeros(4094) + [0x80]) == Crc(init, Zeros(4096))
  {
    hide Crc, Bits8, Bits;
    var x, y := [0x01] + Zeros(4094) + [0x80], Zeros(4096);
    BitsConcat([0x01] + Zeros(4094), [0x80]);
    BitsConcat([0x01], Zeros(4094));
    BitsOfOne(0x01);
    BitsOfOne(0x80);
    ZeroByte();
    BitsZeros(4094);
    BitsZeros(4096);
    TwoBitErrors(init, x, y, 0, PERIOD);
  }
}
