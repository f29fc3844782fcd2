/** The order of x modulo the generator, and the Hamming distance it gives the CRC. */
module CrcDistance {
  import opened CrcPolynomial
  import opened CrcTool
  import opened CrcDetection

  /** The number of steps after which the register's powers of x repeat. */
  const ORDER: nat := 32767

  function One(): Word {
    Zeros(16)[15 := true]
  }

  function PowerOfX(n: nat): Word {
    TimesXToThe(One(), n)
  }

  // ----- Multiplication modulo the generator -----

  /** Horner's rule: acc times x^|a| plus a times b. */
  function Horner(acc: Word, a: seq<bool>, b: Word): Word
    decreases |a|
  {
    if a == [] then acc else Horner(Xor(TimesX(acc), if a[0] then b else Zeros(16)), a[1..], b)
  }

  function Times(a: Word, b: Word): Word {
    Horner(Zeros(16), a, b)
  }

  lemma TimesXIsLinear(a: Word, b: Word)
    ensures TimesX(Xor(a, b)) == Xor(TimesX(a), TimesX(b))
  {
  }

  lemma {:induction false} HornerCommutesWithTimesX(acc: Word, a: seq<bool>, b: Word)
    ensures Horner(TimesX(acc), a, TimesX(b)) == TimesX(Horner(acc, a, b))
    decreases |a|
  {
    if a != [] {
      assert TimesX(Zeros(16)) == Zeros(16);
      hide TimesX, Xor;
      var term := if a[0] then b else Zeros(16);
      TimesXIsLinear(TimesX(acc), term);
      HornerCommutesWithTimesX(Xor(TimesX(acc), term), a[1..], b);
    }
  }

  lemma TimesCommutesWithTimesX(a: Word, b: Word)
    ensures Times(a, TimesX(b)) == TimesX(Times(a, b))
  {
    assert TimesX(Zeros(16)) == Zeros(16);
    HornerCommutesWithTimesX(Zeros(16), a, b);
  }

  lemma {:induction false} HornerOne(prefix: seq<bool>, a: seq<bool>)
    requires |prefix| + |a| == 16
    ensures Horner(Zeros(|a|) + prefix, a, One()) == prefix + a
    decreases |a|
  {
    if a == [] {
      assert Zeros(0) + prefix == prefix + a;
    } else {
      var w := Zeros(|a|) + prefix;
      var v := Xor(TimesX(w), if a[0] then One() else Zeros(16));
      assert !w[0];
      assert v == Zeros(|a| - 1) + (prefix + [a[0]]);
      HornerOne(prefix + [a[0]], a[1..]);
      assert prefix + [a[0]] + a[1..] == prefix + a;
    }
  }

  lemma TimesOne(a: Word)
    ensures Times(a, One()) == a
  {
    HornerOne([], a);
    assert Zeros(16) + [] == Zeros(16) && [] + a == a;
  }

  lemma {:induction false} TimesXToTheOuter(w: Word, n: nat)
    ensures TimesXToThe(TimesX(w), n) == TimesX(TimesXToThe(w, n))
    decreases n
  {
    if n > 0 {
      TimesXToTheOuter(TimesX(w), n - 1);
    }
  }

  lemma {:induction false} TimesXToTheIsTimesPower(a: Word, n: nat)
    ensures TimesXToThe(a, n) == Times(a, PowerOfX(n))
    decreases n
  {
    hide TimesX, Times;
    if n == 0 {
      TimesOne(a);
    } else {
      TimesXToTheIsTimesPower(a, n - 1);
      TimesXToTheOuter(a, n - 1);
      TimesXToTheOuter(One(), n - 1);
      TimesCommutesWithTimesX(a, PowerOfX(n - 1));
    }
  }

  lemma {:induction false} TimesXToTheAdds(w: Word, m: nat, n: nat)
    ensures TimesXToThe(w, m + n) == TimesXToThe(TimesXToThe(w, m), n)
    decreases m
  {
    if m > 0 {
      TimesXToTheAdds(TimesX(w), m - 1, n);
    }
  }

  lemma PowersMultiply(m: nat, n: nat)
    ensures PowerOfX(m + n) == Times(PowerOfX(m), PowerOfX(n))
  {
    TimesXToTheAdds(One(), m, n);
    TimesXToTheIsTimesPower(PowerOfX(m), n);
  }

  // ----- Powers of x, evaluated on machine words by repeated squaring -----

  /** One step of Horner's rule on machine words, the highest power of a being its lowest bit. */
  function Step(acc: bv16, a: bv16, b: bv16): bv16 {
    Add(Shift(acc), b * (a & 1))
  }

  function HornerSteps(acc: bv16, a: bv16, b: bv16, n: nat): bv16
    decreases n
  {
    if n == 0 then acc else HornerSteps(Step(acc, a, b), a >> 1, b, n - 1)
  }

  function FourSteps(acc: bv16, a: bv16, b: bv16): bv16 {
    Step(Step(Step(Step(acc, a, b), a >> 1, b), a >> 2, b), a >> 3, b)
  }

  /** All sixteen steps, written out so that they can be evaluated. */
  function Multiply(a: bv16, b: bv16): bv16 {
    FourSteps(FourSteps(FourSteps(FourSteps(0, a, b), a >> 4, b), a >> 8, b), a >> 12, b)
  }

  lemma ShiftsAdd(a: bv16)
    ensures a >> 1 >> 1 == a >> 2 && a >> 2 >> 1 == a >> 3 && a >> 3 >> 1 == a >> 4
    ensures a >> 4 >> 4 == a >> 8 && a >> 8 >> 4 == a >> 12
  {
  }

  lemma AfterFour(acc: bv16, a: bv16, b: bv16, n: nat)
    ensures HornerSteps(acc, a, b, n + 4) == HornerSteps(FourSteps(acc, a, b), a >> 4, b, n)
  {
    hide Step;
    ShiftsAdd(a);
    var s1 := Step(acc, a, b);
    var s2 := Step(s1, a >> 1, b);
    var s3 := Step(s2, a >> 2, b);
    assert HornerSteps(acc, a, b, n + 4) == HornerSteps(s1, a >> 1, b, n + 3);
    assert HornerSteps(s1, a >> 1, b, n + 3) == HornerSteps(s2, a >> 2, b, n + 2);
    assert HornerSteps(s2, a >> 2, b, n + 2) == HornerSteps(s3, a >> 3, b, n + 1);
    assert HornerSteps(s3, a >> 3, b, n + 1) == HornerSteps(Step(s3, a >> 3, b), a >> 4, b, n);
  }

  lemma MultiplyIsSixteenSteps(a: bv16, b: bv16)
    ensures Multiply(a, b) == HornerSteps(0, a, b, 16)
  {
    hide FourSteps;
    ShiftsAdd(a);
    var f1 := FourSteps(0, a, b);
    var f2 := FourSteps(f1, a >> 4, b);
    var f3 := FourSteps(f2, a >> 8, b);
    AfterFour(0, a, b, 12);
    AfterFour(f1, a >> 4, b, 8);
    AfterFour(f2, a >> 8, b, 4);
    AfterFour(f3, a >> 12, b, 0);
  }

  lemma LowestBit(a: bv16, b: bv16)
    ensures Coefficients(b * (a & 1)) == if Coefficients(a)[0] then Coefficients(b) else Zeros(16)
  {
    if Bit(a, 0) {
      assert a & 1 == 1;
    } else {
      assert a & 1 == 0;
    }
  }

  lemma BitOfHalf(a: bv16, i: nat)
    requires i < 15
    ensures Bit(a >> 1, i) == Bit(a, i + 1)
  {
    match i
    case 0 => case 1 => case 2 => case 3 => case 4 => case 5 => case 6 => case 7 =>
    case 8 => case 9 => case 10 => case 11 => case 12 => case 13 => case _ =>
  }

  lemma HalfCoefficients(a: bv16, n: nat)
    requires 0 < n <= 16
    ensures Coefficients(a >> 1)[..n - 1] == Coefficients(a)[..n][1..]
  {
    var w, half := Coefficients(a), Coefficients(a >> 1);
    forall i | 0 <= i < n - 1 ensures half[i] == w[i + 1] {
      BitOfHalf(a, i);
    }
  }

  lemma {:induction false} HornerStepsIsHorner(acc: bv16, a: bv16, b: bv16, n: nat)
    requires n <= 16
    ensures Coefficients(HornerSteps(acc, a, b, n)) == Horner(Coefficients(acc), Coefficients(a)[..n], Coefficients(b))
    decreases n
  {
    if n > 0 {
      hide Shift, Add, Bit, TimesX, Xor, Coefficients;
      var next := Step(acc, a, b);
      ShiftIsTimesX(acc);
      XorCoefficients(Shift(acc), b * (a & 1));
      LowestBit(a, b);
      HalfCoefficients(a, n);
      HornerStepsIsHorner(next, a >> 1, b, n - 1);
    }
  }

  lemma MultiplyIsTimes(a: bv16, b: bv16)
    ensures Coefficients(Multiply(a, b)) == Times(Coefficients(a), Coefficients(b))
  {
    hide Multiply, HornerSteps, Horner;
    MultiplyIsSixteenSteps(a, b);
    HornerStepsIsHorner(0, a, b, 16);
    assert Coefficients(a)[..16] == Coefficients(a) && Coefficients(0) == Zeros(16);
  }

  ghost predicate PowerIs(n: nat, c: bv16) {
    PowerOfX(n) == Coefficients(c)
  }

  lemma Product(m: nat, a: bv16, n: nat, b: bv16, c: bv16)
    requires PowerIs(m, a) && PowerIs(n, b) && Multiply(a, b) == c
    ensures PowerIs(m + n, c)
  {
    hide Multiply, Times, Coefficients, PowerOfX;
    PowersMultiply(m, n);
    MultiplyIsTimes(a, b);
  }

  lemma FirstPower()
    ensures PowerIs(1, 0x4000)
  {
    assert Coefficients(0x4000) == TimesX(One());
  }

  lemma PowersTo32()
    ensures PowerIs(1, 0x4000)
    ensures PowerIs(2, 0x2000)
    ensures PowerIs(4, 0x0800)
    ensures PowerIs(8, 0x0080)
    ensures PowerIs(16, 0xA001)
    ensures PowerIs(32, 0xE801)
  {
    hide PowerIs;
    FirstPower();
    Product(1, 0x4000, 1, 0x4000, 0x2000);
    Product(2, 0x2000, 2, 0x2000, 0x0800);
    Product(4, 0x0800, 4, 0x0800, 0x0080);
    Product(8, 0x0080, 8, 0x0080, 0xA001);
    Product(16, 0xA001, 16, 0xA001, 0xE801);
  }

  lemma PowersTo1024()
    ensures PowerIs(64, 0xC881)
    ensures PowerIs(128, 0x6080)
    ensures PowerIs(256, 0x8801)
    ensures PowerIs(512, 0xE081)
    ensures PowerIs(1024, 0x6800)
  {
    hide PowerIs;
    PowersTo32();
    Product(32, 0xE801, 32, 0xE801, 0xC881);
    Product(64, 0xC881, 64, 0xC881, 0x6080);
    Product(128, 0x6080, 128, 0x6080, 0x8801);
    Product(256, 0x8801, 256, 0x8801, 0xE081);
    Product(512, 0xE081, 512, 0xE081, 0x6800);
  }

  lemma PowersTo32768()
    ensures PowerIs(2048, 0x2880)
    ensures PowerIs(4096, 0xA881)
    ensures PowerIs(8192, 0x4880)
    ensures PowerIs(16384, 0x8081)
    ensures PowerIs(32768, 0x4000)
  {
    hide PowerIs;
    PowersTo1024();
    Product(1024, 0x6800, 1024, 0x6800, 0x2880);
    Product(2048, 0x2880, 2048, 0x2880, 0xA881);
    Product(4096, 0xA881, 4096, 0xA881, 0x4880);
    Product(8192, 0x4880, 8192, 0x4880, 0x8081);
    Product(16384, 0x8081, 16384, 0x8081, 0x4000);
  }

  lemma Power217()
    ensures PowerIs(217, 0x3E55)
  {
    hide PowerIs;
    PowersTo32();
    PowersTo1024();
    Product(128, 0x6080, 64, 0xC881, 0x6668);
    Product(192, 0x6668, 16, 0xA001, 0xEAAF);
    Product(208, 0xEAAF, 8, 0x0080, 0x7CAA);
    Product(216, 0x7CAA, 1, 0x4000, 0x3E55);
  }

  lemma Power1057()
    ensures PowerIs(1057, 0xCE41)
  {
    hide PowerIs;
    PowersTo32();
    PowersTo1024();
    Product(1024, 0x6800, 32, 0xE801, 0xDC81);
    Product(1056, 0xDC81, 1, 0x4000, 0xCE41);
  }

  lemma Power4681()
    ensures PowerIs(4681, 0x8C69)
  {
    hide PowerIs;
    PowersTo32();
    PowersTo1024();
    PowersTo32768();
    Product(4096, 0xA881, 512, 0xE081, 0x7A48);
    Product(4608, 0x7A48, 64, 0xC881, 0x51DE);
    Product(4672, 0x51DE, 8, 0x0080, 0x58D1);
    Product(4680, 0x58D1, 1, 0x4000, 0x8C69);
  }

  lemma ZerothPower()
    ensures Coefficients(0x8000) == One()
  {
    assert Coefficients(0x8000) == One();
  }

  // ----- The order of x -----

  lemma {:induction false} WholePeriods(t: nat, q: nat, r: nat)
    requires PowerOfX(t) == One()
    ensures PowerOfX(q * t + r) == PowerOfX(r)
    decreases q
  {
    if q > 0 {
      assert q * t + r == t + ((q - 1) * t + r);
      TimesXToTheAdds(One(), t, (q - 1) * t + r);
      WholePeriods(t, q - 1, r);
    }
  }

  lemma RemainderOfPeriod(t: nat, n: nat)
    requires t > 0 && PowerOfX(t) == One()
    ensures PowerOfX(n % t) == PowerOfX(n)
  {
    WholePeriods(t, n / t, n % t);
  }

  /** Of the numbers lo, ..., lo + n - 1, only 1, 7, 31 and 151 divide ORDER = 7 * 31 * 151. */
  ghost predicate NoOtherDivisors(lo: nat, n: nat)
    requires lo > 0
    decreases n
  {
    n == 0 || ((ORDER % lo == 0 ==> lo in {1, 7, 31, 151}) && NoOtherDivisors(lo + 1, n - 1))
  }

  lemma {:induction false} DivisorIn(lo: nat, n: nat, k: nat)
    requires lo > 0 && NoOtherDivisors(lo, n) && lo <= k < lo + n && ORDER % k == 0
    ensures k in {1, 7, 31, 151}
    decreases n
  {
    if k > lo {
      DivisorIn(lo + 1, n - 1, k);
    }
  }

  lemma DivisorTableLow()
    ensures NoOtherDivisors(1, 12) && NoOtherDivisors(13, 12) && NoOtherDivisors(25, 12) && NoOtherDivisors(37, 12)
    ensures NoOtherDivisors(49, 12) && NoOtherDivisors(61, 12) && NoOtherDivisors(73, 12) && NoOtherDivisors(85, 12)
  {
  }

  lemma DivisorTableHigh()
    ensures NoOtherDivisors(97, 12) && NoOtherDivisors(109, 12) && NoOtherDivisors(121, 12) && NoOtherDivisors(133, 12)
    ensures NoOtherDivisors(145, 12) && NoOtherDivisors(157, 12) && NoOtherDivisors(169, 12) && NoOtherDivisors(181, 12)
  {
  }

  lemma SmallDivisors(k: nat)
    requires 0 < k <= 192 && ORDER % k == 0
    ensures k in {1, 7, 31, 151}
  {
    hide NoOtherDivisors;
    DivisorTableLow();
    DivisorTableHigh();
    var lo := Window(k);
    DivisorIn(lo, 12, k);
  }

  lemma Window(k: nat) returns (lo: nat)
    requires 0 < k <= 192
    ensures lo <= k < lo + 12
    ensures lo in {1, 13, 25, 37, 49, 61, 73, 85, 97, 109, 121, 133, 145, 157, 169, 181}
  {
    lo := (k - 1) / 12 * 12 + 1;
  }

  /** Every proper divisor of the order divides one of its three maximal ones. */
  lemma ProperDivisor(t: nat)
    requires 0 < t < ORDER && ORDER % t == 0
    ensures 4681 % t == 0 || 1057 % t == 0 || 217 % t == 0
  {
    if t <= 192 {
      SmallDivisors(t);
    } else {
      var m := ORDER / t;
      assert t * m == ORDER;
      Cofactor(t, m);
      SmallDivisors(m);
    }
  }

  lemma Cofactor(t: nat, m: nat)
    requires t > 192 && t * m == ORDER
    ensures 0 < m <= 192 && ORDER % m == 0
  {
    assert m > 0;
    ProductGrows(t, m);
    assert ORDER / m == t;
  }

  lemma ProductGrows(t: nat, m: nat)
    ensures t > 192 && m > 192 ==> t * m > ORDER
  {
    if t > 192 && m > 192 {
      assert t * m >= 193 * m;
    }
  }

  /** The least power of x that is 1 divides every other such power. */
  lemma LeastPeriod(n: nat) returns (t: nat)
    requires n > 0 && PowerOfX(n) == One()
    ensures 0 < t <= n && PowerOfX(t) == One() && n % t == 0
    ensures forall d :: 0 < d < t ==> PowerOfX(d) != One()
  {
    t := 1;
    while PowerOfX(t) != One()
      invariant 0 < t <= n
      invariant forall d :: 0 < d < t ==> PowerOfX(d) != One()
      decreases n - t
    {
      t := t + 1;
    }
    RemainderOfPeriod(t, n);
  }

  lemma XToTheOrderIsOne()
    ensures PowerOfX(ORDER) == One()
  {
    hide Coefficients;
    PowersTo32768();
    PowersTo32();
    TimesXToTheOuter(One(), ORDER);
    assert TimesX(PowerOfX(ORDER)) == TimesX(One());
    TimesXIsInjective(PowerOfX(ORDER), One());
  }

  lemma PowerZero()
    ensures PowerOfX(0) == One()
  {
  }

  lemma MaximalDivisorsAreNotPeriods()
    ensures PowerOfX(4681) != One() && PowerOfX(1057) != One() && PowerOfX(217) != One()
  {
    hide Coefficients, One;
    ZerothPower();
    Power4681();
    Power1057();
    Power217();
    if PowerOfX(4681) == One() {
      CoefficientsAreFaithful(0x8C69, 0x8000);
    }
    if PowerOfX(1057) == One() {
      CoefficientsAreFaithful(0xCE41, 0x8000);
    }
    if PowerOfX(217) == One() {
      CoefficientsAreFaithful(0x3E55, 0x8000);
    }
  }

  lemma ProperDivisorsAreNotPeriods(t: nat)
    requires 0 < t < ORDER && ORDER % t == 0
    ensures PowerOfX(t) != One()
  {
    hide PowerOfX;
    if PowerOfX(t) == One() {
      MaximalDivisorsAreNotPeriods();
      ProperDivisor(t);
      RemainderOfPeriod(t, 4681);
      RemainderOfPeriod(t, 1057);
      RemainderOfPeriod(t, 217);
      PowerZero();
    }
  }

  /** x has order 32767: a power of x is 1 exactly when 32767 divides the exponent. */
  lemma OrderOfX(n: nat)
    ensures PowerOfX(n) == One() <==> n % ORDER == 0
  {
    hide PowerOfX, One;
    XToTheOrderIsOne();
    RemainderOfPeriod(ORDER, n);
    PowerZero();
    var d := n % ORDER;
    if d != 0 && PowerOfX(d) == One() {
      var t := LeastPeriod(ORDER);
      assert t <= d;
      ProperDivisorsAreNotPeriods(t);
    }
  }


  // ----- Two, and up to three, flipped bits -----

  /** The bit string of length n with a single 1, at position i. */
  function Unit(i: nat, n: nat): (r: seq<bool>)
    requires i < n
    ensures |r| == n
  {
    Zeros(n)[i := true]
  }

  lemma RegisterOfUnit(i: nat, n: nat)
    requires i < n
    ensures Register(Zeros(16), Unit(i, n)) == PowerOfX(15 + n - i)
  {
    var first := [true] + Zeros(15);
    assert Unit(i, n) == Zeros(i) + [true] + Zeros(n - 1 - i);
    ZerosAround(i, [true], n - 1 - i);
    RegisterOfPrefix(Zeros(16), [true]);
    assert Xor(Zeros(16), first) == first;
    HighestPower();
    TimesXToTheAdds(One(), 15, 1);
    TimesXToTheAdds(One(), 16, n - 1 - i);
  }

  lemma HighestPower()
    ensures PowerOfX(15) == [true] + Zeros(15)
  {
    PowersWithinWord(15);
  }

  lemma {:induction false} PowersWithinWord(k: nat)
    requires k <= 15
    ensures PowerOfX(k) == Unit(15 - k, 16)
    decreases k
  {
    if k > 0 {
      PowersWithinWord(k - 1);
      TimesXToTheOuter(One(), k - 1);
      assert TimesX(Unit(16 - k, 16)) == Unit(15 - k, 16);
    }
  }

  lemma TwoUnits(i: nat, j: nat, n: nat)
    requires i < j < n
    ensures Register(Zeros(16), Xor(Unit(i, n), Unit(j, n))) == Zeros(16) <==> (j - i) % ORDER == 0
  {
    hide Register, TimesX, One;
    var a := 15 + n - j;
    var p, q := PowerOfX(15 + n - i), PowerOfX(a);
    assert Xor(Zeros(16), Zeros(16)) == Zeros(16);
    RegisterIsLinear(Zeros(16), Zeros(16), Unit(i, n), Unit(j, n));
    RegisterOfUnit(i, n);
    RegisterOfUnit(j, n);
    TimesXToTheAdds(One(), j - i, a);
    OrderOfX(j - i);
    if Xor(p, q) == Zeros(16) {
      XorIsZero(p, q);
      TimesXToTheIsInjective(PowerOfX(j - i), One(), a);
    }
    if PowerOfX(j - i) == One() {
      assert p == q;
      assert Xor(p, q) == Zeros(16);
    }
  }

  /** Two flipped bits go unnoticed exactly when their distance is a multiple of 32767. */
  lemma TwoBitErrors(m: seq<bv8>, n: seq<bv8>, start: bv32, i: nat, j: nat)
    requires |m| == |n| && i < j < 8 * |m|
    requires Difference(m, n) == Xor(Unit(i, 8 * |m|), Unit(j, 8 * |m|))
    ensures Crc(m, start) == Crc(n, start) <==> (j - i) % ORDER == 0
  {
    hide Crc, Register;
    CrcSeesOnlyDifference(m, n, start);
    TwoUnits(i, j, 8 * |m|);
  }

  lemma {:induction false} OnePosition(d: seq<bool>) returns (i: nat)
    requires Weight(d) == 1
    ensures i < |d| && d == Unit(i, |d|)
    decreases |d|
  {
    if d[0] {
      i := 0;
      NoPosition(d[1..]);
      assert d == [true] + d[1..];
    } else {
      var k := OnePosition(d[1..]);
      i := k + 1;
      assert d == [false] + d[1..];
    }
  }

  lemma {:induction false} NoPosition(d: seq<bool>)
    requires Weight(d) == 0
    ensures d == Zeros(|d|)
    decreases |d|
  {
    if d != [] {
      NoPosition(d[1..]);
      assert d == [false] + d[1..];
    }
  }

  lemma {:induction false} TwoPositions(d: seq<bool>) returns (i: nat, j: nat)
    requires Weight(d) == 2
    ensures i < j < |d| && d == Xor(Unit(i, |d|), Unit(j, |d|))
    decreases |d|
  {
    if d[0] {
      var k := OnePosition(d[1..]);
      i, j := 0, k + 1;
      assert d == [true] + d[1..];
    } else {
      var k, l := TwoPositions(d[1..]);
      i, j := k + 1, l + 1;
      assert d == [false] + d[1..];
    }
  }

  /** Any one, two or three flipped bits change the CRC of a message of up to 4095 bytes. */
  lemma FewErrorsAreDetected(m: seq<bv8>, n: seq<bv8>, start: bv32)
    requires |m| == |n| <= 4095
    requires 1 <= Weight(Difference(m, n)) <= 3
    ensures Crc(m, start) != Crc(n, start)
  {
    hide Crc, Difference, Xor;
    if Weight(Difference(m, n)) == 2 {
      var i, j := TwoPositions(Difference(m, n));
      TwoBitErrors(m, n, start, i, j);
    } else {
      OddErrorsAreDetected(m, n, start);
    }
  }
}
