/** Which changes to a table file its CRC is sure to notice. */
module CrcDetection {
  import opened CrcPolynomial
  import opened CrcTool

  /** The bits in which two messages of one length differ. */
  function Difference(m: seq<bv8>, n: seq<bv8>): (r: seq<bool>)
    requires |m| == |n|
    ensures |r| == 8 * |m|
  {
    Xor(MessageBits(m), MessageBits(n))
  }

  /** Whether a change is noticed depends on the changed bits alone, not on the message or the starting value. */
  lemma CrcSeesOnlyDifference(m: seq<bv8>, n: seq<bv8>, start: bv32)
    requires |m| == |n|
    ensures Crc(m, start) == Crc(n, start) <==> Register(Zeros(16), Difference(m, n)) == Zeros(16)
  {
    hide Truncate, SignExtend, Coefficients, TableCrc, Register, MessageBits;
    var crc := Truncate(start);
    var w := Coefficients(crc);
    var a, b := TableCrc(crc, m), TableCrc(crc, n);
    TableCrcIsRegister(crc, m);
    TableCrcIsRegister(crc, n);
    RegisterIsLinear(w, w, MessageBits(m), MessageBits(n));
    assert Xor(w, w) == Zeros(16);
    if Crc(m, start) == Crc(n, start) {
      TruncateSignExtend(a);
      TruncateSignExtend(b);
      assert Xor(Coefficients(a), Coefficients(b)) == Zeros(16);
    }
    if Register(Zeros(16), Difference(m, n)) == Zeros(16) {
      XorIsZero(Coefficients(a), Coefficients(b));
      CoefficientsAreFaithful(a, b);
    }
  }

  lemma XorIsZero(a: seq<bool>, b: seq<bool>)
    requires |a| == |b| && Xor(a, b) == Zeros(|a|)
    ensures a == b
  {
    forall i | 0 <= i < |a| ensures a[i] == b[i] {
      assert Xor(a, b)[i] == Zeros(|a|)[i];
    }
  }

  // ----- An odd number of flipped bits -----

  function Weight(bits: seq<bool>): nat
    decreases |bits|
  {
    if bits == [] then 0 else (if bits[0] then 1 else 0) + Weight(bits[1..])
  }

  lemma {:induction false} WeightOfZeros(n: nat)
    ensures Weight(Zeros(n)) == 0
  {
    if n > 0 {
      assert Zeros(n)[1..] == Zeros(n - 1);
      WeightOfZeros(n - 1);
    }
  }

  lemma {:induction false} WeightOfXor(a: seq<bool>, b: seq<bool>)
    requires |a| == |b|
    ensures Weight(Xor(a, b)) % 2 == (Weight(a) + Weight(b)) % 2
    decreases |a|
  {
    if a != [] {
      assert Xor(a, b)[1..] == Xor(a[1..], b[1..]);
      WeightOfXor(a[1..], b[1..]);
    }
  }

  lemma {:induction false} WeightOfSet(bits: seq<bool>, i: nat)
    requires i < |bits| && !bits[i]
    ensures Weight(bits[i := true]) == Weight(bits) + 1
    decreases |bits|
  {
    if i > 0 {
      assert bits[i := true][1..] == bits[1..][i - 1 := true];
      WeightOfSet(bits[1..], i - 1);
    } else {
      assert bits[i := true][1..] == bits[1..];
    }
  }

  lemma {:induction false} WeightOfAppend(a: seq<bool>, b: seq<bool>)
    ensures Weight(a + b) == Weight(a) + Weight(b)
    decreases |a|
  {
    if a == [] {
      assert a + b == b;
    } else {
      assert (a + b)[1..] == a[1..] + b;
      WeightOfAppend(a[1..], b);
    }
  }

  /** The generator has an even number of terms, so multiplying by x keeps the parity. */
  lemma TimesXKeepsParity(w: Word)
    ensures Weight(TimesX(w)) % 2 == Weight(w) % 2
  {
    var shifted := w[1..] + [false];
    WeightOfAppend(w[1..], [false]);
    if w[0] {
      var taps := Generator()[1..];
      var zeros := Zeros(16);
      assert taps == zeros[0 := true][13 := true][15 := true];
      WeightOfZeros(16);
      WeightOfSet(zeros, 0);
      WeightOfSet(zeros[0 := true], 13);
      WeightOfSet(zeros[0 := true][13 := true], 15);
      WeightOfXor(shifted, taps);
      assert TimesX(w) == Xor(shifted, taps);
    } else {
      assert TimesX(w) == shifted;
    }
  }

  lemma {:induction false} RegisterKeepsParity(w: Word, bits: seq<bool>)
    ensures Weight(Register(w, bits)) % 2 == (Weight(w) + Weight(bits)) % 2
    decreases |bits|
  {
    if bits != [] {
      var v := w[0 := w[0] != bits[0]];
      assert v[1..] == w[1..];
      TimesXKeepsParity(v);
      RegisterKeepsParity(Feed(w, bits[0]), bits[1..]);
    }
  }

  /** Any odd number of flipped bits changes the CRC, at any message length. */
  lemma OddErrorsAreDetected(m: seq<bv8>, n: seq<bv8>, start: bv32)
    requires |m| == |n| && Weight(Difference(m, n)) % 2 == 1
    ensures Crc(m, start) != Crc(n, start)
  {
    hide Crc, Register, Difference;
    CrcSeesOnlyDifference(m, n, start);
    RegisterKeepsParity(Zeros(16), Difference(m, n));
    WeightOfZeros(16);
  }

  // ----- Bursts -----

  lemma {:induction false} TimesXToTheIsInjective(w: Word, v: Word, n: nat)
    requires TimesXToThe(w, n) == TimesXToThe(v, n)
    ensures w == v
    decreases n
  {
    if n > 0 {
      TimesXToTheIsInjective(TimesX(w), TimesX(v), n - 1);
      TimesXIsInjective(w, v);
    }
  }

  lemma {:induction false} RegisterOfZeros(w: Word, n: nat)
    ensures Register(w, Zeros(n)) == TimesXToThe(w, n)
    decreases n
  {
    if n > 0 {
      assert w[0 := w[0] != false] == w;
      assert Zeros(n)[1..] == Zeros(n - 1);
      RegisterOfZeros(TimesX(w), n - 1);
    }
  }

  lemma {:induction false} ZeroStaysZero(n: nat)
    ensures TimesXToThe(Zeros(16), n) == Zeros(16)
    decreases n
  {
    if n > 0 {
      assert TimesX(Zeros(16)) == Zeros(16);
      ZeroStaysZero(n - 1);
    }
  }

  /** Leading zeros leave the register empty and trailing zeros cannot empty it again. */
  lemma ZerosAround(before: nat, core: seq<bool>, after: nat)
    ensures Register(Zeros(16), Zeros(before) + core + Zeros(after)) == TimesXToThe(Register(Zeros(16), core), after)
  {
    RegisterAppend(Zeros(16), Zeros(before) + core, Zeros(after));
    RegisterAppend(Zeros(16), Zeros(before), core);
    RegisterOfZeros(Zeros(16), before);
    ZeroStaysZero(before);
    RegisterOfZeros(Register(Zeros(16), core), after);
  }

  lemma ShortBurst(before: nat, core: seq<bool>, after: nat, k: nat)
    requires k < |core| <= 16 && core[k]
    ensures Register(Zeros(16), Zeros(before) + core + Zeros(after)) != Zeros(16)
  {
    hide Register, TimesX;
    var padded := core + Zeros(16 - |core|);
    ZerosAround(before, core, after);
    RegisterOfPrefix(Zeros(16), core);
    assert Xor(Zeros(16), padded) == padded;
    assert padded[k] && !Zeros(16)[k];
    var reg := Register(Zeros(16), core);
    if TimesXToThe(reg, after) == Zeros(16) {
      ZeroStaysZero(after);
      TimesXToTheIsInjective(reg, Zeros(16), after);
      ZeroStaysZero(|core|);
      TimesXToTheIsInjective(padded, Zeros(16), |core|);
    }
  }

  lemma {:induction false} MessageBitsAreFaithful(m: seq<bv8>, n: seq<bv8>)
    requires |m| == |n| && MessageBits(m) == MessageBits(n)
    ensures m == n
    decreases |m|
  {
    hide Coefficients, ByteBits, Widen;
    if m != [] {
      var a, b := ByteBits(m[0]), ByteBits(n[0]);
      assert MessageBits(m)[..8] == a && MessageBits(n)[..8] == b;
      assert MessageBits(m)[8..] == MessageBits(m[1..]) && MessageBits(n)[8..] == MessageBits(n[1..]);
      ByteCoefficients(m[0]);
      ByteCoefficients(n[0]);
      CoefficientsAreFaithful(Widen(m[0]), Widen(n[0]));
      WidenIsInjective(m[0], n[0]);
      MessageBitsAreFaithful(m[1..], n[1..]);
    }
  }

  lemma WidenIsInjective(a: bv8, b: bv8)
    requires Widen(a) == Widen(b)
    ensures a == b
  {
    assert (Widen(a) & 0xFF) as bv8 == a && (Widen(b) & 0xFF) as bv8 == b;
  }

  lemma WindowSplits(d: seq<bool>, from: nat, to: nat)
    requires from <= to <= |d|
    requires forall i :: 0 <= i < |d| && d[i] ==> from <= i < to
    ensures d == Zeros(from) + d[from..to] + Zeros(|d| - to)
  {
    assert d[..from] == Zeros(from) && d[to..] == Zeros(|d| - to);
    assert d == d[..from] + d[from..to] + d[to..];
  }

  lemma BurstLeavesRegisterNonzero(d: seq<bool>, from: nat, k: nat)
    requires k < |d| && d[k]
    requires forall i :: 0 <= i < |d| && d[i] ==> from <= i < from + 16
    ensures Register(Zeros(16), d) != Zeros(16)
  {
    hide Register, Zeros;
    var to := if from + 16 < |d| then from + 16 else |d|;
    var core := d[from..to];
    assert core[k - from] == d[k];
    WindowSplits(d, from, to);
    ShortBurst(from, core, |d| - to, k - from);
  }

  /** Any change confined to 16 consecutive bits, in transmission order, changes the CRC, at any message length. */
  lemma BurstsAreDetected(m: seq<bv8>, n: seq<bv8>, start: bv32, from: nat)
    requires |m| == |n| && m != n
    requires forall i :: 0 <= i < 8 * |m| && Difference(m, n)[i] ==> from <= i < from + 16
    ensures Crc(m, start) != Crc(n, start)
  {
    hide Crc, Register, MessageBits;
    var d := Difference(m, n);
    if k :| 0 <= k < |d| && d[k] {
      BurstLeavesRegisterNonzero(d, from, k);
      CrcSeesOnlyDifference(m, n, start);
    } else {
      assert d == Zeros(|d|);
      XorIsZero(MessageBits(m), MessageBits(n));
      MessageBitsAreFaithful(m, n);
    }
  }
}
