/**
 * The records of an ELF file, chapter 4 of the System V ABI, and how the tool brings them into the order of its host.
 */
module ElfLayout {
  import opened Basics
  import opened ElfBytes

  const EI_NIDENT: nat := 16

  datatype RecordKind = Ehdr | Shdr | Sym

  function RecordSize(k: RecordKind, is32: bool): nat {
    match k
    case Ehdr => if is32 then 52 else 64
    case Shdr => if is32 then 40 else 64
    case Sym => if is32 then 16 else 24
  }

  // The fields the tool uses.
  function EType(): Field { Field(16, 2) }
  function EMachine(): Field { Field(18, 2) }
  function EVersion(): Field { Field(20, 4) }
  function EShoff(is32: bool): Field { if is32 then Field(32, 4) else Field(40, 8) }
  function EShentsize(is32: bool): Field { Field(if is32 then 46 else 58, 2) }
  function EShnum(is32: bool): Field { Field(if is32 then 48 else 60, 2) }
  function EShstrndx(is32: bool): Field { Field(if is32 then 50 else 62, 2) }

  function ShName(): Field { Field(0, 4) }
  function ShType(): Field { Field(4, 4) }
  function ShOffset(is32: bool): Field { if is32 then Field(16, 4) else Field(24, 8) }
  function ShSize(is32: bool): Field { if is32 then Field(20, 4) else Field(32, 8) }
  function ShEntsize(is32: bool): Field { if is32 then Field(36, 4) else Field(56, 8) }

  function StName(): Field { Field(0, 4) }
  function StValue(is32: bool): Field { if is32 then Field(4, 4) else Field(8, 8) }
  function StSize(is32: bool): Field { if is32 then Field(8, 4) else Field(16, 8) }
  function StShndx(is32: bool): Field { Field(if is32 then 14 else 6, 2) }

  /** All fields of a record, in the order of the structure. */
  function Layout(k: RecordKind, is32: bool): seq<Field> {
    match k
    case Ehdr => if is32 then
      Ident() + [Field(16, 2), Field(18, 2), Field(20, 4), Field(24, 4), Field(28, 4), Field(32, 4), Field(36, 4),
                 Field(40, 2), Field(42, 2), Field(44, 2), Field(46, 2), Field(48, 2), Field(50, 2)]
      else
      Ident() + [Field(16, 2), Field(18, 2), Field(20, 4), Field(24, 8), Field(32, 8), Field(40, 8), Field(48, 4),
                 Field(52, 2), Field(54, 2), Field(56, 2), Field(58, 2), Field(60, 2), Field(62, 2)]
    case Shdr => if is32 then
      [Field(0, 4), Field(4, 4), Field(8, 4), Field(12, 4), Field(16, 4), Field(20, 4), Field(24, 4), Field(28, 4),
       Field(32, 4), Field(36, 4)]
      else
      [Field(0, 4), Field(4, 4), Field(8, 8), Field(16, 8), Field(24, 8), Field(32, 8), Field(40, 4), Field(44, 4),
       Field(48, 8), Field(56, 8)]
    case Sym => if is32 then [Field(0, 4), Field(4, 4), Field(8, 4), Field(12, 1), Field(13, 1), Field(14, 2)]
      else [Field(0, 4), Field(4, 1), Field(5, 1), Field(6, 2), Field(8, 8), Field(16, 8)]
  }

  /** e_ident, a byte at a time. */
  function Ident(): seq<Field> {
    seq(EI_NIDENT, i requires 0 <= i < EI_NIDENT => Field(i, 1))
  }

  /** The fields that the tool swaps, in the order in which it does. */
  function Swaps(k: RecordKind, is32: bool): seq<Field> {
    match k
    case Ehdr => if is32 then
      [Field(16, 2), Field(18, 2), Field(20, 4), Field(24, 4), Field(28, 4), Field(32, 4), Field(36, 4),
       Field(40, 2), Field(42, 2), Field(44, 2), Field(46, 2), Field(48, 2), Field(50, 2)]
      else
      [Field(16, 2), Field(18, 2), Field(20, 4), Field(24, 8), Field(32, 8), Field(40, 8), Field(48, 4),
       Field(52, 2), Field(54, 2), Field(56, 2), Field(58, 2), Field(60, 2), Field(62, 2)]
    case Shdr => if is32 then
      [Field(0, 4), Field(4, 4), Field(8, 4), Field(12, 4), Field(16, 4), Field(20, 4), Field(32, 4), Field(36, 4),
       Field(24, 4), Field(28, 4)]
      else
      [Field(0, 4), Field(4, 4), Field(8, 8), Field(16, 8), Field(24, 8), Field(32, 8), Field(48, 8), Field(56, 8),
       Field(40, 4), Field(44, 4)]
    case Sym => if is32 then [Field(0, 4), Field(4, 4), Field(8, 4), Field(14, 2)]
      else [Field(0, 4), Field(8, 8), Field(16, 8), Field(6, 2)]
  }

  predicate AllFit(fields: seq<Field>, mem: seq<Byte>) {
    forall i :: 0 <= i < |fields| ==> Fits(fields[i], mem)
  }

  /** A record with all its swaps made. */
  function SwapRecord(k: RecordKind, is32: bool, mem: seq<Byte>): (r: seq<Byte>)
    requires AllFit(Swaps(k, is32), mem)
    ensures |r| == |mem|
  {
    SwapFields(mem, Swaps(k, is32), |Swaps(k, is32)|)
  }

  // ----- In place -----

  method SwapElfHeader(elfHeader: array<Byte>, is32: bool)
    requires elfHeader.Length >= RecordSize(Ehdr, is32)
    modifies elfHeader
    ensures AllFit(Swaps(Ehdr, is32), old(elfHeader[..]))
    ensures elfHeader[..] == SwapRecord(Ehdr, is32, old(elfHeader[..]))
  {
    hide SwapField;
    ghost var was := elfHeader[..];
    LayoutFits(Ehdr, is32, was);
    if is32 {
      SwapUInt16(elfHeader, 16);
      SwapUInt16(elfHeader, 18);
      SwapUInt32(elfHeader, 20);
      SwapUInt32(elfHeader, 24);
      SwapUInt32(elfHeader, 28);
      SwapUInt32(elfHeader, 32);
      SwapUInt32(elfHeader, 36);
      SwapUInt16(elfHeader, 40);
      SwapUInt16(elfHeader, 42);
      SwapUInt16(elfHeader, 44);
      SwapUInt16(elfHeader, 46);
      SwapUInt16(elfHeader, 48);
      SwapUInt16(elfHeader, 50);
    } else {
      SwapUInt16(elfHeader, 16);
      SwapUInt16(elfHeader, 18);
      SwapUInt32(elfHeader, 20);
      SwapUInt64(elfHeader, 24);
      SwapUInt64(elfHeader, 32);
      SwapUInt64(elfHeader, 40);
      assert elfHeader[..] == SwapFields(was, Swaps(Ehdr, is32), 6);
      SwapUInt32(elfHeader, 48);
      SwapUInt16(elfHeader, 52);
      SwapUInt16(elfHeader, 54);
      SwapUInt16(elfHeader, 56);
      SwapUInt16(elfHeader, 58);
      SwapUInt16(elfHeader, 60);
      SwapUInt16(elfHeader, 62);
    }
    assert elfHeader[..] == SwapFields(was, Swaps(Ehdr, is32), 13);
    assert |Swaps(Ehdr, is32)| == 13;
  }

  method SwapSectionHeader(sectionHeader: array<Byte>, is32: bool)
    requires sectionHeader.Length >= RecordSize(Shdr, is32)
    modifies sectionHeader
    ensures AllFit(Swaps(Shdr, is32), old(sectionHeader[..]))
    ensures sectionHeader[..] == SwapRecord(Shdr, is32, old(sectionHeader[..]))
  {
    hide SwapField;
    if is32 {
      SwapUInt32(sectionHeader, 0);
      SwapUInt32(sectionHeader, 4);
      SwapUInt32(sectionHeader, 8);
      SwapUInt32(sectionHeader, 12);
      SwapUInt32(sectionHeader, 16);
      SwapUInt32(sectionHeader, 20);
      SwapUInt32(sectionHeader, 32);
      SwapUInt32(sectionHeader, 36);
      SwapUInt32(sectionHeader, 24);
      SwapUInt32(sectionHeader, 28);
    } else {
      SwapUInt32(sectionHeader, 0);
      SwapUInt32(sectionHeader, 4);
      SwapUInt64(sectionHeader, 8);
      SwapUInt64(sectionHeader, 16);
      SwapUInt64(sectionHeader, 24);
      SwapUInt64(sectionHeader, 32);
      SwapUInt64(sectionHeader, 48);
      SwapUInt64(sectionHeader, 56);
      SwapUInt32(sectionHeader, 40);
      SwapUInt32(sectionHeader, 44);
    }
    assert sectionHeader[..] == SwapFields(old(sectionHeader[..]), Swaps(Shdr, is32), 10);
    assert |Swaps(Shdr, is32)| == 10;
  }

  method SwapSymbol(symbol: array<Byte>, is32: bool)
    requires symbol.Length >= RecordSize(Sym, is32)
    modifies symbol
    ensures AllFit(Swaps(Sym, is32), old(symbol[..]))
    ensures symbol[..] == SwapRecord(Sym, is32, old(symbol[..]))
  {
    hide SwapField;
    if is32 {
      SwapUInt32(symbol, 0);
      SwapUInt32(symbol, 4);
      SwapUInt32(symbol, 8);
      SwapUInt16(symbol, 14);
    } else {
      SwapUInt32(symbol, 0);
      SwapUInt64(symbol, 8);
      SwapUInt64(symbol, 16);
      SwapUInt16(symbol, 6);
    }
    assert symbol[..] == SwapFields(old(symbol[..]), Swaps(Sym, is32), 4);
    assert |Swaps(Sym, is32)| == 4;
  }

  // ----- What the host reads -----

  /** A record in the memory of the host, after the swap that the tool makes when the orders differ. */
  function HostMemory(k: RecordKind, is32: bool, host: Order, target: Order, mem: seq<Byte>): (r: seq<Byte>)
    requires AllFit(Swaps(k, is32), mem)
    ensures |r| == |mem|
  {
    if host == target then mem else SwapRecord(k, is32, mem)
  }

  /** A field is swapped as a whole, exactly once, or is a single byte that no swap touches. */
  ghost predicate SwappedOrSingle(k: RecordKind, is32: bool, f: Field) {
    var swaps := Swaps(k, is32);
    || (exists i :: 0 <= i < |swaps| && swaps[i] == f)
    || (f.width == 1 && forall i :: 0 <= i < |swaps| ==> !Overlap(swaps[i], f))
  }

  lemma SwapsAreApart(k: RecordKind, is32: bool)
    ensures Apart(Swaps(k, is32))
  {
    match k
    case Ehdr => HeaderSwapsAscend(is32);
    case Shdr =>
    case Sym =>
  }

  lemma HeaderSwapsAscend(is32: bool)
    ensures Apart(Swaps(Ehdr, is32))
  {
    var s := Swaps(Ehdr, is32);
    forall i | 0 <= i < |s| - 1 ensures s[i].offset + s[i].width <= s[i + 1].offset {
      match i {
        case 0 => case 1 => case 2 => case 3 => case 4 => case 5 =>
        case 6 => case 7 => case 8 => case 9 => case 10 => case 11 =>
      }
    }
    Ascending(s);
  }

  lemma Ascending(s: seq<Field>)
    requires forall i :: 0 <= i < |s| - 1 ==> s[i].offset + s[i].width <= s[i + 1].offset
    ensures Apart(s)
  {
    forall i, j | 0 <= i < j < |s| ensures !Overlap(s[i], s[j]) {
      AscendingFrom(s, i, j);
    }
  }

  lemma {:induction false} AscendingFrom(s: seq<Field>, i: nat, j: nat)
    requires i < j < |s| && forall i :: 0 <= i < |s| - 1 ==> s[i].offset + s[i].width <= s[i + 1].offset
    ensures s[i].offset + s[i].width <= s[j].offset
    decreases j
  {
    if i < j - 1 {
      AscendingFrom(s, i, j - 1);
    }
  }

  lemma SwapsCoverLayout(k: RecordKind, is32: bool, i: nat)
    requires i < |Layout(k, is32)|
    ensures SwappedOrSingle(k, is32, Layout(k, is32)[i])
  {
    var f, swaps := Layout(k, is32)[i], Swaps(k, is32);
    match k {
      case Ehdr =>
        if i >= EI_NIDENT {
          assert swaps[i - EI_NIDENT] == f;
        }
      case Shdr =>
        assert i >= 6 ==> swaps[if i < 8 then i + 2 else i - 2] == f;
        assert i < 6 ==> swaps[i] == f;
      case Sym =>
        assert is32 ==> swaps == [Field(0, 4), Field(4, 4), Field(8, 4), Field(14, 2)];
        assert !is32 ==> swaps == [Field(0, 4), Field(8, 8), Field(16, 8), Field(6, 2)];
        assert f in swaps || f.width == 1;
    }
  }

  lemma SingleByte(o: Order, b: seq<Byte>)
    requires |b| == 1
    ensures Value(o, b) == b[0]
  {
    assert b[1..] == [];
    assert Reverse(b) == b;
  }

  /** Reading is independent of the host: whatever its order, it gets what the file says in the order of the target. */
  lemma HostReadsTarget(k: RecordKind, is32: bool, host: Order, target: Order, mem: seq<Byte>, i: nat)
    requires |mem| >= RecordSize(k, is32) && i < |Layout(k, is32)|
    ensures AllFit(Swaps(k, is32), mem) && Fits(Layout(k, is32)[i], mem)
    ensures Get(host, HostMemory(k, is32, host, target, mem), Layout(k, is32)[i])
      == Get(target, mem, Layout(k, is32)[i])
  {
    LayoutFits(k, is32, mem);
    hide Layout, Swaps, RecordSize;
    var f, swaps := Layout(k, is32)[i], Swaps(k, is32);
    if host != target {
      SwapsAreApart(k, is32);
      SwapsCoverLayout(k, is32, i);
      if j :| 0 <= j < |swaps| && swaps[j] == f {
        SwappedOnce(mem, swaps, |swaps|, j);
        ReversedValue(host, Raw(mem, f));
      } else {
        SwapsElsewhere(mem, swaps, |swaps|, f);
        SingleByte(host, Raw(mem, f));
        SingleByte(target, Raw(mem, f));
      }
    }
  }

  lemma LayoutFits(k: RecordKind, is32: bool, mem: seq<Byte>)
    requires |mem| >= RecordSize(k, is32)
    ensures AllFit(Swaps(k, is32), mem) && AllFit(Layout(k, is32), mem)
  {
  }

  // ----- Writing records -----

  predicate FitsWidth(values: seq<nat>, fields: seq<Field>) {
    |values| == |fields| && forall i :: 0 <= i < |fields| ==> values[i] < Pow256(fields[i].width)
  }

  /** The record that holds the values, in an order. */
  function Encode(o: Order, values: seq<nat>, fields: seq<Field>): seq<Byte>
    requires |values| == |fields|
    decreases |fields|
  {
    if fields == [] then []
    else
      var n := |fields| - 1;
      Encode(o, values[..n], fields[..n]) + Bytes(o, values[n], fields[n].width)
  }

  /** Every field starts where the one before it ends: the structure has no padding. */
  ghost predicate Contiguous(fields: seq<Field>) {
    && (|fields| > 0 ==> fields[0].offset == 0)
    && (forall i :: 0 <= i < |fields| - 1 ==> fields[i + 1].offset == fields[i].offset + fields[i].width)
  }

  lemma {:induction false} EncodedLength(o: Order, values: seq<nat>, fields: seq<Field>)
    requires |values| == |fields| && Contiguous(fields)
    ensures |Encode(o, values, fields)| == if fields == [] then 0
      else fields[|fields| - 1].offset + fields[|fields| - 1].width
    decreases |fields|
  {
    if fields != [] {
      var n := |fields| - 1;
      EncodedLength(o, values[..n], fields[..n]);
    }
  }

  lemma {:induction false} EncodedField(o: Order, values: seq<nat>, fields: seq<Field>, i: nat)
    requires Contiguous(fields) && FitsWidth(values, fields) && i < |fields|
    ensures var mem := Encode(o, values, fields); Fits(fields[i], mem) && Get(o, mem, fields[i]) == values[i]
    decreases |fields|
  {
    var n := |fields| - 1;
    EncodedLength(o, values, fields);
    EncodedLength(o, values[..n], fields[..n]);
    var mem, prior := Encode(o, values, fields), Encode(o, values[..n], fields[..n]);
    hide Get, Encode, Bytes;
    if i == n {
      BytesThenValue(o, values[n], fields[n].width);
      LastRaw(prior, Bytes(o, values[n], fields[n].width), fields[n], o);
    } else {
      EncodedField(o, values[..n], fields[..n], i);
      EarlierRaw(prior, Bytes(o, values[n], fields[n].width), fields[i], o);
    }
  }

  lemma LastRaw(prior: seq<Byte>, last: seq<Byte>, f: Field, o: Order)
    requires f == Field(|prior|, |last|)
    ensures Fits(f, prior + last) && Get(o, prior + last, f) == Value(o, last)
  {
    assert Raw(prior + last, f) == last;
  }

  lemma EarlierRaw(prior: seq<Byte>, last: seq<Byte>, f: Field, o: Order)
    requires Fits(f, prior)
    ensures Fits(f, prior + last) && Get(o, prior + last, f) == Get(o, prior, f)
  {
    assert Raw(prior + last, f) == Raw(prior, f);
  }

  lemma LayoutIsContiguous(k: RecordKind, is32: bool)
    ensures Contiguous(Layout(k, is32))
    ensures var l := Layout(k, is32); |l| > 0 && l[|l| - 1].offset + l[|l| - 1].width == RecordSize(k, is32)
  {
    match k {
      case Ehdr =>
        var rest := Swaps(Ehdr, is32);
        assert Layout(k, is32) == Ident() + rest;
        IdentThen(rest);
      case Shdr =>
      case Sym =>
    }
  }

  lemma IdentThen(rest: seq<Field>)
    requires |rest| > 0 && rest[0].offset == EI_NIDENT
    requires forall i :: 0 <= i < |rest| - 1 ==> rest[i + 1].offset == rest[i].offset + rest[i].width
    ensures Contiguous(Ident() + rest)
  {
    var l := Ident() + rest;
    forall i | 0 <= i < |l| - 1 ensures l[i + 1].offset == l[i].offset + l[i].width {
      if i >= EI_NIDENT {
        assert l[i] == rest[i - EI_NIDENT] && l[i + 1] == rest[i - EI_NIDENT + 1];
      }
    }
  }

  /** Every record survives being written in the order of the target and read, with the swaps, on either host. */
  lemma RecordRoundTrip(k: RecordKind, is32: bool, host: Order, target: Order, values: seq<nat>, i: nat)
    requires FitsWidth(values, Layout(k, is32)) && i < |values|
    ensures var mem := Encode(target, values, Layout(k, is32));
      && |mem| == RecordSize(k, is32) && AllFit(Swaps(k, is32), mem) && Fits(Layout(k, is32)[i], mem)
      && Get(host, HostMemory(k, is32, host, target, mem), Layout(k, is32)[i]) == values[i]
  {
    hide Layout, Swaps, RecordSize;
    LayoutIsContiguous(k, is32);
    EncodedLength(target, values, Layout(k, is32));
    EncodedField(target, values, Layout(k, is32), i);
    HostReadsTarget(k, is32, host, target, Encode(target, values, Layout(k, is32)), i);
  }

  // ----- Every sequence of bytes is a record -----

  function FieldValues(o: Order, mem: seq<Byte>, fields: seq<Field>): (v: seq<nat>)
    requires AllFit(fields, mem)
    ensures FitsWidth(v, fields)
  {
    seq(|fields|, i requires 0 <= i < |fields| => Get(o, mem, fields[i]))
  }

  lemma {:induction false} FieldsAscend(fields: seq<Field>, n: nat)
    requires Contiguous(fields) && n < |fields|
    ensures forall i :: 0 <= i < n ==> fields[i].offset + fields[i].width <= fields[n].offset
    ensures n == 0 ==> fields[n].offset == 0
    decreases n
  {
    if n > 0 {
      FieldsAscend(fields, n - 1);
    }
  }

  lemma ValuesOfPrefix(o: Order, mem: seq<Byte>, fields: seq<Field>, n: nat)
    requires Contiguous(fields) && AllFit(fields, mem) && n < |fields|
    requires forall i :: 0 <= i < n ==> fields[i].offset + fields[i].width <= fields[n].offset
    ensures AllFit(fields[..n], mem[..fields[n].offset])
    ensures FieldValues(o, mem[..fields[n].offset], fields[..n]) == FieldValues(o, mem, fields)[..n]
  {
    hide Get;
    var prior := mem[..fields[n].offset];
    forall i | 0 <= i < n ensures Fits(fields[i], prior) && Get(o, prior, fields[i]) == Get(o, mem, fields[i]) {
      assert prior + mem[fields[n].offset..] == mem;
      EarlierRaw(prior, mem[fields[n].offset..], fields[i], o);
    }
  }

  /** Where the last field ends. */
  function End(fields: seq<Field>): nat {
    if fields == [] then 0 else fields[|fields| - 1].offset + fields[|fields| - 1].width
  }

  lemma WithoutLast(o: Order, mem: seq<Byte>, fields: seq<Field>)
    requires fields != [] && Contiguous(fields) && AllFit(fields, mem) && |mem| == End(fields)
    ensures var n := |fields| - 1;
      var prior := mem[..fields[n].offset];
      && Contiguous(fields[..n]) && AllFit(fields[..n], prior) && |prior| == End(fields[..n])
      && FieldValues(o, prior, fields[..n]) == FieldValues(o, mem, fields)[..n]
      && mem == prior + Raw(mem, fields[n]) && FieldValues(o, mem, fields)[n] == Value(o, Raw(mem, fields[n]))
  {
    hide Value;
    var n := |fields| - 1;
    FieldsAscend(fields, n);
    ValuesOfPrefix(o, mem, fields, n);
  }

  lemma {:induction false} FieldsThenEncode(o: Order, mem: seq<Byte>, fields: seq<Field>)
    requires Contiguous(fields) && AllFit(fields, mem) && |mem| == End(fields)
    ensures Encode(o, FieldValues(o, mem, fields), fields) == mem
    decreases |fields|
  {
    if fields != [] {
      hide FieldValues, Bytes, Value, Raw, Contiguous, AllFit, End;
      var n := |fields| - 1;
      WithoutLast(o, mem, fields);
      FieldsThenEncode(o, mem[..fields[n].offset], fields[..n]);
      ValueThenBytes(o, Raw(mem, fields[n]));
    }
  }

  /** Reading the fields of any bytes of the right number, and writing them again, gives the bytes: nothing is lost. */
  lemma BytesRoundTrip(k: RecordKind, is32: bool, o: Order, mem: seq<Byte>)
    requires |mem| == RecordSize(k, is32)
    ensures AllFit(Layout(k, is32), mem)
    ensures Encode(o, FieldValues(o, mem, Layout(k, is32)), Layout(k, is32)) == mem
  {
    LayoutFits(k, is32, mem);
    LayoutIsContiguous(k, is32);
    hide Layout, RecordSize;
    FieldsThenEncode(o, mem, Layout(k, is32));
  }
}
