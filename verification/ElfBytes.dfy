/** Records of numbers in memory and in files: the two byte orders, and the swap of one order for the other in place. */
module ElfBytes {
  import opened Basics

  datatype Order = Little | Big

  function Other(o: Order): Order {
    if o == Little then Big else Little
  }

  function Reverse<T>(s: seq<T>): (r: seq<T>)
    ensures |r| == |s| && forall k :: 0 <= k < |s| ==> r[k] == s[|s| - 1 - k]
  {
    seq(|s|, k requires 0 <= k < |s| => s[|s| - 1 - k])
  }

  function Pow256(n: nat): (p: nat)
    ensures p > 0
  {
    if n == 0 then 1 else 256 * Pow256(n - 1)
  }

  // ----- Numbers -----

  function LittleValue(b: seq<Byte>): (v: nat)
    ensures v < Pow256(|b|)
  {
    if b == [] then 0 else b[0] + 256 * LittleValue(b[1..])
  }

  function LittleBytes(v: nat, width: nat): (b: seq<Byte>)
    ensures |b| == width
    decreases width
  {
    if width == 0 then [] else [v % 256] + LittleBytes(v / 256, width - 1)
  }

  function Value(o: Order, b: seq<Byte>): (v: nat)
    ensures v < Pow256(|b|)
  {
    if o == Little then LittleValue(b) else LittleValue(Reverse(b))
  }

  function Bytes(o: Order, v: nat, width: nat): (b: seq<Byte>)
    ensures |b| == width
  {
    if o == Little then LittleBytes(v, width) else Reverse(LittleBytes(v, width))
  }

  lemma ReverseTwice<T>(s: seq<T>)
    ensures Reverse(Reverse(s)) == s
  {
  }

  lemma {:induction false} LittleBytesThenValue(v: nat, width: nat)
    ensures LittleValue(LittleBytes(v, width)) == v % Pow256(width)
    decreases width
  {
    if width > 0 {
      LittleBytesThenValue(v / 256, width - 1);
      var b := LittleBytes(v, width);
      assert b[1..] == LittleBytes(v / 256, width - 1);
      DigitsOf(v, Pow256(width - 1));
    }
  }

  lemma DigitsOf(v: nat, p: nat)
    requires p > 0
    ensures v % (256 * p) == v % 256 + 256 * (v / 256 % p)
  {
    var d, q := v / 256, v / 256 / p;
    assert v == 256 * d + v % 256 && d == p * q + d % p;
    assert v == (256 * p) * q + (v % 256 + 256 * (d % p)) by {
      assert 256 * (p * q) == (256 * p) * q;
    }
    Remainder(v, 256 * p, q, v % 256 + 256 * (d % p));
  }

  lemma Remainder(v: int, m: int, q: int, r: int)
    requires v == m * q + r && 0 <= r < m
    ensures v % m == r
  {
    var k := v / m - q;
    assert v == m * (v / m) + v % m;
    assert m * (v / m) - m * q == m * k;
    assert k >= 1 ==> m * k >= m;
    assert k <= -1 ==> m * k <= -m;
  }

  lemma {:induction false} LittleValueThenBytes(b: seq<Byte>)
    ensures LittleBytes(LittleValue(b), |b|) == b
  {
    if b != [] {
      var rest := LittleValue(b[1..]);
      assert (b[0] + 256 * rest) % 256 == b[0] && (b[0] + 256 * rest) / 256 == rest;
      LittleValueThenBytes(b[1..]);
    }
  }

  /** Writing a number and reading it back, in either order. */
  lemma BytesThenValue(o: Order, v: nat, width: nat)
    requires v < Pow256(width)
    ensures Value(o, Bytes(o, v, width)) == v
  {
    LittleBytesThenValue(v, width);
    ReverseTwice(LittleBytes(v, width));
    Remainder(v, Pow256(width), 0, v);
  }

  lemma ValueThenBytes(o: Order, b: seq<Byte>)
    ensures Bytes(o, Value(o, b), |b|) == b
  {
    LittleValueThenBytes(b);
    LittleValueThenBytes(Reverse(b));
    ReverseTwice(b);
  }

  /** Reversing the bytes of a number takes it from one order to the other. */
  lemma ReversedValue(o: Order, b: seq<Byte>)
    ensures Value(o, Reverse(b)) == Value(Other(o), b)
  {
    ReverseTwice(b);
  }

  lemma ReversedBytes(o: Order, v: nat, width: nat)
    ensures Reverse(Bytes(o, v, width)) == Bytes(Other(o), v, width)
  {
    ReverseTwice(LittleBytes(v, width));
  }

  // ----- Fields -----

  datatype Field = Field(offset: nat, width: nat)

  predicate Fits(f: Field, mem: seq<Byte>) {
    f.offset + f.width <= |mem|
  }

  function Raw(mem: seq<Byte>, f: Field): (r: seq<Byte>)
    requires Fits(f, mem)
    ensures |r| == f.width
  {
    mem[f.offset..f.offset + f.width]
  }

  function Get(o: Order, mem: seq<Byte>, f: Field): (v: nat)
    requires Fits(f, mem)
    ensures v < Pow256(f.width)
  {
    Value(o, Raw(mem, f))
  }

  // ----- Writing and swapping fields -----

  function Update(mem: seq<Byte>, f: Field, b: seq<Byte>): (r: seq<Byte>)
    requires Fits(f, mem) && |b| == f.width
    ensures |r| == |mem|
  {
    mem[..f.offset] + b + mem[f.offset + f.width..]
  }

  function SwapField(mem: seq<Byte>, f: Field): (r: seq<Byte>)
    requires Fits(f, mem)
    ensures |r| == |mem|
  {
    Update(mem, f, Reverse(Raw(mem, f)))
  }

  /** The first n fields swapped one after the other. */
  function SwapFields(mem: seq<Byte>, fields: seq<Field>, n: nat): (r: seq<Byte>)
    requires n <= |fields| && forall i :: 0 <= i < |fields| ==> Fits(fields[i], mem)
    ensures |r| == |mem|
    decreases n
  {
    if n == 0 then mem else SwapField(SwapFields(mem, fields, n - 1), fields[n - 1])
  }

  predicate Overlap(f: Field, g: Field) {
    f.offset < g.offset + g.width && g.offset < f.offset + f.width
  }

  /** No byte belongs to two fields. */
  ghost predicate Apart(fields: seq<Field>) {
    forall i, j :: 0 <= i < j < |fields| ==> !Overlap(fields[i], fields[j])
  }

  lemma UpdateOthers(mem: seq<Byte>, f: Field, b: seq<Byte>, g: Field)
    requires Fits(f, mem) && Fits(g, mem) && !Overlap(f, g) && |b| == f.width
    ensures Raw(Update(mem, f, b), g) == Raw(mem, g)
  {
  }

  lemma UpdateThis(mem: seq<Byte>, f: Field, b: seq<Byte>)
    requires Fits(f, mem) && |b| == f.width
    ensures Raw(Update(mem, f, b), f) == b
  {
  }

  lemma SwapOthers(mem: seq<Byte>, f: Field, g: Field)
    requires Fits(f, mem) && Fits(g, mem) && !Overlap(f, g)
    ensures Raw(SwapField(mem, f), g) == Raw(mem, g)
  {
    UpdateOthers(mem, f, Reverse(Raw(mem, f)), g);
  }

  lemma SwapThis(mem: seq<Byte>, f: Field)
    requires Fits(f, mem)
    ensures Raw(SwapField(mem, f), f) == Reverse(Raw(mem, f))
  {
    UpdateThis(mem, f, Reverse(Raw(mem, f)));
  }

  lemma {:induction false} SwapsElsewhere(mem: seq<Byte>, fields: seq<Field>, n: nat, g: Field)
    requires n <= |fields| && Fits(g, mem) && forall i :: 0 <= i < |fields| ==> Fits(fields[i], mem)
    requires forall i :: 0 <= i < n ==> !Overlap(fields[i], g)
    ensures Raw(SwapFields(mem, fields, n), g) == Raw(mem, g)
    decreases n
  {
    hide Raw, SwapField, Overlap;
    if n > 0 {
      SwapsElsewhere(mem, fields, n - 1, g);
      SwapOthers(SwapFields(mem, fields, n - 1), fields[n - 1], g);
    }
  }

  /** Whatever the order of the swaps, each field ends up swapped once. */
  lemma {:induction false} SwappedOnce(mem: seq<Byte>, fields: seq<Field>, n: nat, i: nat)
    requires i < n <= |fields| && Apart(fields) && forall i :: 0 <= i < |fields| ==> Fits(fields[i], mem)
    ensures Raw(SwapFields(mem, fields, n), fields[i]) == Reverse(Raw(mem, fields[i]))
    decreases n
  {
    var prior := SwapFields(mem, fields, n - 1);
    if i == n - 1 {
      SwapsElsewhere(mem, fields, n - 1, fields[i]);
      SwapThis(prior, fields[i]);
    } else {
      SwappedOnce(mem, fields, n - 1, i);
      SwapOthers(prior, fields[n - 1], fields[i]);
    }
  }

  // ----- Words at the start of a structure -----

  function WordField(i: nat): Field {
    Field(4 * i, 4)
  }

  function WordFields(n: nat): (f: seq<Field>)
    ensures |f| == n
  {
    seq(n, i requires 0 <= i < n => WordField(i))
  }

  /** The first n words stored one after the other. */
  function StoreWords(mem: seq<Byte>, o: Order, w: seq<nat>, n: nat): (r: seq<Byte>)
    requires n <= |w| && 4 * |w| <= |mem|
    ensures |r| == |mem|
    decreases n
  {
    if n == 0 then mem else Update(StoreWords(mem, o, w, n - 1), WordField(n - 1), Bytes(o, w[n - 1], 4))
  }

  lemma {:induction false} StoredWord(mem: seq<Byte>, o: Order, w: seq<nat>, n: nat, i: nat)
    requires i < n <= |w| && 4 * |w| <= |mem|
    ensures Raw(StoreWords(mem, o, w, n), WordField(i)) == Bytes(o, w[i], 4)
    decreases n
  {
    var prior := StoreWords(mem, o, w, n - 1);
    if i == n - 1 {
      UpdateThis(prior, WordField(i), Bytes(o, w[i], 4));
    } else {
      StoredWord(mem, o, w, n - 1, i);
      UpdateOthers(prior, WordField(n - 1), Bytes(o, w[n - 1], 4), WordField(i));
    }
  }

  /** Words stored by a little-endian host and then swapped are the words of a big-endian one. */
  lemma WordIsBigEndian(mem: seq<Byte>, host: Order, w: seq<nat>, i: nat)
    requires i < |w| && 4 * |w| <= |mem| && forall k :: 0 <= k < |w| ==> Raw(mem, WordField(k)) == Bytes(host, w[k], 4)
    ensures var r := if host == Little then SwapFields(mem, WordFields(|w|), |w|) else mem;
      Raw(r, WordField(i)) == Bytes(Big, w[i], 4)
  {
    if host == Little {
      SwappedOnce(mem, WordFields(|w|), |w|, i);
      ReversedBytes(Little, w[i], 4);
    }
  }

  // ----- Swapping in place -----

  method SwapUInt16(a: array<Byte>, offset: nat)
    requires offset + 2 <= a.Length
    modifies a
    ensures a[..] == SwapField(old(a[..]), Field(offset, 2))
  {
    var tempByte := a[offset + 1];
    a[offset + 1] := a[offset];
    a[offset] := tempByte;
  }

  method SwapUInt32(a: array<Byte>, offset: nat)
    requires offset + 4 <= a.Length
    modifies a
    ensures a[..] == SwapField(old(a[..]), Field(offset, 4))
  {
    var tempByte := a[offset + 3];
    a[offset + 3] := a[offset];
    a[offset] := tempByte;
    tempByte := a[offset + 2];
    a[offset + 2] := a[offset + 1];
    a[offset + 1] := tempByte;
  }

  method SwapUInt64(a: array<Byte>, offset: nat)
    requires offset + 8 <= a.Length
    modifies a
    ensures a[..] == SwapField(old(a[..]), Field(offset, 8))
  {
    hide SwapField;
    ghost var was := a[..];
    var tempByte := a[offset + 7];
    a[offset + 7] := a[offset];
    a[offset] := tempByte;
    tempByte := a[offset + 6];
    a[offset + 6] := a[offset + 1];
    a[offset + 1] := tempByte;
    tempByte := a[offset + 5];
    a[offset + 5] := a[offset + 2];
    a[offset + 2] := tempByte;
    tempByte := a[offset + 4];
    a[offset + 4] := a[offset + 3];
    a[offset + 3] := tempByte;
    EightReversed(was, a[..], offset);
  }

  lemma EightReversed(was: seq<Byte>, now: seq<Byte>, p: nat)
    requires p + 8 <= |was| == |now|
    requires now[..p] == was[..p] && now[p + 8..] == was[p + 8..]
    requires now[p] == was[p + 7] && now[p + 1] == was[p + 6] && now[p + 2] == was[p + 5] && now[p + 3] == was[p + 4]
    requires now[p + 4] == was[p + 3] && now[p + 5] == was[p + 2] && now[p + 6] == was[p + 1] && now[p + 7] == was[p]
    ensures now == SwapField(was, Field(p, 8))
  {
    var r := Reverse(Raw(was, Field(p, 8)));
    assert now[p..p + 8] == [was[p + 7], was[p + 6], was[p + 5], was[p + 4], was[p + 3], was[p + 2], was[p + 1], was[p]]
      == r;
    assert now == now[..p] + now[p..p + 8] + now[p + 8..];
  }
}
