/** CRC-16/ARC as long division of polynomials over GF(2), and as a shift register fed one bit at a time. */
module CrcPolynomial {

  /** Addition over GF(2), coefficient by coefficient. */
  function Xor(a: seq<bool>, b: seq<bool>): (r: seq<bool>)
    requires |a| == |b|
    ensures |r| == |a|
  {
    seq(|a|, i requires 0 <= i < |a| => a[i] != b[i])
  }

  function Zeros(n: nat): (r: seq<bool>)
    ensures |r| == n
  {
    seq(n, _ => false)
  }

  // ----- Long division -----

  /** The generator x^16 + x^15 + x^2 + 1, that is 0x8005 with its leading 1, highest power first. */
  function Generator(): (r: seq<bool>)
    ensures |r| == 17
  {
    seq(17, i => i == 0 || i == 1 || i == 14 || i == 16)
  }

  /** Schoolbook division: cancel the leading coefficient with the generator, drop it, repeat. */
  function Remainder(w: seq<bool>): (r: seq<bool>)
    requires |w| >= 16
    ensures |r| == 16
    decreases |w|
  {
    if |w| == 16 then w
    else if w[0] then Remainder(Xor(w[..17], Generator())[1..] + w[17..])
    else Remainder(w[1..])
  }

  // ----- The shift register -----

  /** A polynomial of degree below 16, highest power first. */
  type Word = w: seq<bool> | |w| == 16 witness Zeros(16)

  /** Multiplication by x modulo the generator. */
  function TimesX(w: Word): Word {
    seq(16, i requires 0 <= i < 16 => (i < 15 && w[i + 1]) != (w[0] && Generator()[i + 1]))
  }

  function Feed(w: Word, bit: bool): Word {
    TimesX(w[0 := w[0] != bit])
  }

  /** The register after a whole bit string. */
  function Register(w: Word, bits: seq<bool>): Word
    decreases |bits|
  {
    if bits == [] then w else Register(Feed(w, bits[0]), bits[1..])
  }

  function TimesXToThe(w: Word, n: nat): Word
    decreases n
  {
    if n == 0 then w else TimesXToThe(TimesX(w), n - 1)
  }

  /** What is divided: the bits times x^16, with the starting register added to the first 16 coefficients. */
  function Dividend(w: Word, bits: seq<bool>): (r: seq<bool>)
    ensures |r| == |bits| + 16
  {
    var d := bits + Zeros(16);
    Xor(d[..16], w) + d[16..]
  }

  /** One step of long division is one step of the register. */
  lemma FeedIsDivisionStep(w: Word, bits: seq<bool>)
    requires bits != []
    ensures Remainder(Dividend(w, bits)) == Remainder(Dividend(Feed(w, bits[0]), bits[1..]))
  {
    var d := Dividend(w, bits);
    var e := Dividend(Feed(w, bits[0]), bits[1..]);
    var step := if d[0] then Xor(d[..17], Generator())[1..] + d[17..] else d[1..];
    var padded, rest := bits + Zeros(16), bits[1..] + Zeros(16);
    assert |padded| >= 17 && d[0] == (w[0] != bits[0]);
    forall i | 0 <= i < |e| ensures step[i] == e[i] {
      assert rest[i] == padded[i + 1];
      if i < 15 {
        assert d[i + 1] == (padded[i + 1] != w[i + 1]);
      } else {
        assert d[i + 1] == padded[i + 1];
      }
    }
    assert step == e;
  }

  /** The shift register computes the remainder of the bits times x^16, from every starting register. */
  lemma {:induction false} RegisterIsRemainder(w: Word, bits: seq<bool>)
    ensures Register(w, bits) == Remainder(Dividend(w, bits))
    decreases |bits|
  {
    if bits == [] {
      assert Dividend(w, bits) == w;
    } else {
      FeedIsDivisionStep(w, bits);
      RegisterIsRemainder(Feed(w, bits[0]), bits[1..]);
    }
  }

  // ----- Algebra of the register -----

  lemma {:induction false} RegisterAppend(w: Word, a: seq<bool>, b: seq<bool>)
    ensures Register(w, a + b) == Register(Register(w, a), b)
    decreases |a|
  {
    if a == [] {
      assert a + b == b;
    } else {
      assert (a + b)[1..] == a[1..] + b;
      RegisterAppend(Feed(w, a[0]), a[1..], b);
    }
  }

  /** The register is linear in its start and its input together. */
  lemma {:induction false} RegisterIsLinear(w: Word, v: Word, a: seq<bool>, b: seq<bool>)
    requires |a| == |b|
    ensures Register(Xor(w, v), Xor(a, b)) == Xor(Register(w, a), Register(v, b))
    decreases |a|
  {
    if a != [] {
      assert Feed(Xor(w, v), Xor(a, b)[0]) == Xor(Feed(w, a[0]), Feed(v, b[0]));
      assert Xor(a, b)[1..] == Xor(a[1..], b[1..]);
      RegisterIsLinear(Feed(w, a[0]), Feed(v, b[0]), a[1..], b[1..]);
    }
  }

  /** Feeding up to 16 bits one at a time is adding them all first and shifting afterwards. */
  lemma {:induction false} RegisterOfPrefix(w: Word, bits: seq<bool>)
    requires |bits| <= 16
    ensures Register(w, bits) == TimesXToThe(Xor(w, bits + Zeros(16 - |bits|)), |bits|)
    decreases |bits|
  {
    var padded := bits + Zeros(16 - |bits|);
    if bits == [] {
      assert Xor(w, padded) == w;
    } else {
      var rest := bits[1..] + Zeros(16 - |bits[1..]|);
      var v, u := TimesX(Xor(w, padded)), Xor(Feed(w, bits[0]), rest);
      forall i | 0 <= i < 16 ensures v[i] == u[i] {
        if i < 15 {
          assert rest[i] == padded[i + 1];
        }
      }
      assert v == u;
      RegisterOfPrefix(Feed(w, bits[0]), bits[1..]);
    }
  }

  lemma TimesXIsInjective(w: Word, v: Word)
    requires TimesX(w) == TimesX(v)
    ensures w == v
  {
    assert Generator()[16];
    assert TimesX(w)[15] == w[0] && TimesX(v)[15] == v[0];
    forall i | 0 <= i < 16 ensures w[i] == v[i] {
      if i > 0 {
        assert TimesX(w)[i - 1] == TimesX(v)[i - 1];
      }
    }
  }
}
