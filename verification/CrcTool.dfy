/** The table-driven CRC of the cFE table files and the tool that runs it over a file. */
module CrcTool {
  import opened CrcPolynomial

  function Select(k: bv8, e0: bv16, e1: bv16, e2: bv16, e3: bv16, e4: bv16, e5: bv16, e6: bv16, e7: bv16,
                  e8: bv16, e9: bv16, e10: bv16, e11: bv16, e12: bv16, e13: bv16, e14: bv16, e15: bv16): bv16 {
    match k
    case 0 => e0 case 1 => e1 case 2 => e2 case 3 => e3 case 4 => e4 case 5 => e5 case 6 => e6 case 7 => e7
    case 8 => e8 case 9 => e9 case 10 => e10 case 11 => e11 case 12 => e12 case 13 => e13 case 14 => e14 case _ => e15
  }

  /** The 256 table entries, a row of sixteen for each high half of the index. */
  function CrcTable(index: bv8): bv16 {
    var low := index & 0x0F;
    match index >> 4
    case 0 =>
      Select(low, 0x0000, 0xC0C1, 0xC181, 0x0140, 0xC301, 0x03C0, 0x0280, 0xC241,
             0xC601, 0x06C0, 0x0780, 0xC741, 0x0500, 0xC5C1, 0xC481, 0x0440)
    case 1 =>
      Select(low, 0xCC01, 0x0CC0, 0x0D80, 0xCD41, 0x0F00, 0xCFC1, 0xCE81, 0x0E40,
             0x0A00, 0xCAC1, 0xCB81, 0x0B40, 0xC901, 0x09C0, 0x0880, 0xC841)
    case 2 =>
      Select(low, 0xD801, 0x18C0, 0x1980, 0xD941, 0x1B00, 0xDBC1, 0xDA81, 0x1A40,
             0x1E00, 0xDEC1, 0xDF81, 0x1F40, 0xDD01, 0x1DC0, 0x1C80, 0xDC41)
    case 3 =>
      Select(low, 0x1400, 0xD4C1, 0xD581, 0x1540, 0xD701, 0x17C0, 0x1680, 0xD641,
             0xD201, 0x12C0, 0x1380, 0xD341, 0x1100, 0xD1C1, 0xD081, 0x1040)
    case 4 =>
      Select(low, 0xF001, 0x30C0, 0x3180, 0xF141, 0x3300, 0xF3C1, 0xF281, 0x3240,
             0x3600, 0xF6C1, 0xF781, 0x3740, 0xF501, 0x35C0, 0x3480, 0xF441)
    case 5 =>
      Select(low, 0x3C00, 0xFCC1, 0xFD81, 0x3D40, 0xFF01, 0x3FC0, 0x3E80, 0xFE41,
             0xFA01, 0x3AC0, 0x3B80, 0xFB41, 0x3900, 0xF9C1, 0xF881, 0x3840)
    case 6 =>
      Select(low, 0x2800, 0xE8C1, 0xE981, 0x2940, 0xEB01, 0x2BC0, 0x2A80, 0xEA41,
             0xEE01, 0x2EC0, 0x2F80, 0xEF41, 0x2D00, 0xEDC1, 0xEC81, 0x2C40)
    case 7 =>
      Select(low, 0xE401, 0x24C0, 0x2580, 0xE541, 0x2700, 0xE7C1, 0xE681, 0x2640,
             0x2200, 0xE2C1, 0xE381, 0x2340, 0xE101, 0x21C0, 0x2080, 0xE041)
    case 8 =>
      Select(low, 0xA001, 0x60C0, 0x6180, 0xA141, 0x6300, 0xA3C1, 0xA281, 0x6240,
             0x6600, 0xA6C1, 0xA781, 0x6740, 0xA501, 0x65C0, 0x6480, 0xA441)
    case 9 =>
      Select(low, 0x6C00, 0xACC1, 0xAD81, 0x6D40, 0xAF01, 0x6FC0, 0x6E80, 0xAE41,
             0xAA01, 0x6AC0, 0x6B80, 0xAB41, 0x6900, 0xA9C1, 0xA881, 0x6840)
    case 10 =>
      Select(low, 0x7800, 0xB8C1, 0xB981, 0x7940, 0xBB01, 0x7BC0, 0x7A80, 0xBA41,
             0xBE01, 0x7EC0, 0x7F80, 0xBF41, 0x7D00, 0xBDC1, 0xBC81, 0x7C40)
    case 11 =>
      Select(low, 0xB401, 0x74C0, 0x7580, 0xB541, 0x7700, 0xB7C1, 0xB681, 0x7640,
             0x7200, 0xB2C1, 0xB381, 0x7340, 0xB101, 0x71C0, 0x7080, 0xB041)
    case 12 =>
      Select(low, 0x5000, 0x90C1, 0x9181, 0x5140, 0x9301, 0x53C0, 0x5280, 0x9241,
             0x9601, 0x56C0, 0x5780, 0x9741, 0x5500, 0x95C1, 0x9481, 0x5440)
    case 13 =>
      Select(low, 0x9C01, 0x5CC0, 0x5D80, 0x9D41, 0x5F00, 0x9FC1, 0x9E81, 0x5E40,
             0x5A00, 0x9AC1, 0x9B81, 0x5B40, 0x9901, 0x59C0, 0x5880, 0x9841)
    case 14 =>
      Select(low, 0x8801, 0x48C0, 0x4980, 0x8941, 0x4B00, 0x8BC1, 0x8A81, 0x4A40,
             0x4E00, 0x8EC1, 0x8F81, 0x4F40, 0x8D01, 0x4DC0, 0x4C80, 0x8C41)
    case _ =>
      Select(low, 0x4400, 0x84C1, 0x8581, 0x4540, 0x8701, 0x47C0, 0x4680, 0x8641,
             0x8201, 0x42C0, 0x4380, 0x8341, 0x4100, 0x81C1, 0x8081, 0x4040)
  }

  // ----- The bitwise register, on machine words -----

  function Add(a: bv16, b: bv16): bv16 {
    a ^ b
  }

  function Widen(b: bv8): bv16 {
    b as bv16
  }

  /** One bit-at-a-time step; 0xA001 is 0x8005 with its bits in the opposite order. */
  function Shift(c: bv16): bv16 {
    (c >> 1) ^ (0xA001 * (c & 1))
  }

  function Shift8(c: bv16): bv16 {
    Shift(Shift(Shift(Shift(Shift(Shift(Shift(Shift(c))))))))
  }

  /** Every one of the 256 entries is what the polynomial makes it. */
  lemma TableEntry(index: bv8)
    ensures CrcTable(index) == Shift8(Widen(index))
  {
    match index >> 4
    case 0 => case 1 => case 2 => case 3 => case 4 => case 5 => case 6 => case 7 =>
    case 8 => case 9 => case 10 => case 11 => case 12 => case 13 => case 14 => case _ =>
  }

  lemma ShiftIsLinear(a: bv16, b: bv16)
    ensures Shift(Add(a, b)) == Add(Shift(a), Shift(b))
  {
  }

  lemma Shift8IsLinear(a: bv16, b: bv16)
    ensures Shift8(Add(a, b)) == Add(Shift8(a), Shift8(b))
  {
    hide Shift, Add;
    var a1, b1 := Shift(a), Shift(b);
    var a2, b2 := Shift(a1), Shift(b1);
    var a3, b3 := Shift(a2), Shift(b2);
    var a4, b4 := Shift(a3), Shift(b3);
    var a5, b5 := Shift(a4), Shift(b4);
    var a6, b6 := Shift(a5), Shift(b5);
    var a7, b7 := Shift(a6), Shift(b6);
    ShiftIsLinear(a, b);
    ShiftIsLinear(a1, b1);
    ShiftIsLinear(a2, b2);
    ShiftIsLinear(a3, b3);
    ShiftIsLinear(a4, b4);
    ShiftIsLinear(a5, b5);
    ShiftIsLinear(a6, b6);
    ShiftIsLinear(a7, b7);
  }

  // ----- One pass of the loop of CalculateCRC, with C's promotions to int -----

  /** An int16 promoted to a 32-bit integer: the top bit is spread over the upper half. */
  function SignExtend(c: bv16): bv32 {
    ((c as bv32) ^ 0x8000) - 0x8000
  }

  /** A 32-bit integer converted to int16. */
  function Truncate(v: bv32): bv16 {
    (v & 0xFFFF) as bv16
  }

  /** The right shift by one byte of a 32-bit signed integer, which keeps the sign. */
  function ShiftRightSigned8(v: bv32): bv32 {
    ((v >> 8) ^ 0x0080_0000) - 0x0080_0000
  }

  function TableIndex(crc: bv16, b: bv8): bv8 {
    ((SignExtend(crc) ^ (b as bv32)) & 0x00FF) as bv8
  }

  function TableCombine(crc: bv16, entry: bv16): bv16 {
    Truncate((ShiftRightSigned8(SignExtend(crc)) & 0x00FF) ^ (entry as bv32))
  }

  function TableStep(crc: bv16, b: bv8): bv16 {
    TableCombine(crc, CrcTable(TableIndex(crc, b)))
  }

  /** The sign extension that ends one call is undone by the mask that starts the next. */
  lemma TruncateSignExtend(c: bv16)
    ensures Truncate(SignExtend(c)) == c
  {
  }

  function HighPart(c: bv16): bv16 {
    c & 0xFF00
  }

  lemma CombineAddsHighPart(crc: bv16, entry: bv16)
    ensures TableCombine(crc, entry) == Add(Shift8(HighPart(crc)), entry)
  {
  }

  function LowPart(c: bv16): bv16 {
    c & 0x00FF
  }

  lemma IndexAddsLowPart(crc: bv16, b: bv8)
    ensures Widen(TableIndex(crc, b)) == Add(LowPart(crc), Widen(b))
  {
  }

  lemma PartsAdd(c: bv16)
    ensures Add(HighPart(c), LowPart(c)) == c
  {
  }

  lemma AddIsAssociative(a: bv16, b: bv16, c: bv16)
    ensures Add(Add(a, b), c) == Add(a, Add(b, c))
  {
  }

  lemma TableStepIsShift8(crc: bv16, b: bv8)
    ensures TableStep(crc, b) == Shift8(Add(crc, Widen(b)))
  {
    hide TableCombine, TableIndex, CrcTable, Shift8, Add, Widen, HighPart, LowPart;
    var index := TableIndex(crc, b);
    CombineAddsHighPart(crc, CrcTable(index));
    TableEntry(index);
    IndexAddsLowPart(crc, b);
    PartsAdd(crc);
    AddIsAssociative(HighPart(crc), LowPart(crc), Widen(b));
    Shift8IsLinear(HighPart(crc), Widen(index));
  }

  // ----- From machine words to polynomials -----

  /** Bit i of a word, the lowest bit being bit 0. */
  predicate Bit(c: bv16, i: nat)
    requires i < 16
  {
    if i < 8 then
      if i < 4 then
        if i == 0 then c & 0x0001 != 0 else if i == 1 then c & 0x0002 != 0
        else if i == 2 then c & 0x0004 != 0 else c & 0x0008 != 0
      else
        if i == 4 then c & 0x0010 != 0 else if i == 5 then c & 0x0020 != 0
        else if i == 6 then c & 0x0040 != 0 else c & 0x0080 != 0
    else
      if i < 12 then
        if i == 8 then c & 0x0100 != 0 else if i == 9 then c & 0x0200 != 0
        else if i == 10 then c & 0x0400 != 0 else c & 0x0800 != 0
      else
        if i == 12 then c & 0x1000 != 0 else if i == 13 then c & 0x2000 != 0
        else if i == 14 then c & 0x4000 != 0 else c & 0x8000 != 0
  }

  /** The polynomial a reflected register stands for: bit i is the coefficient of x^(15-i). */
  function Coefficients(c: bv16): Word {
    seq(16, i requires 0 <= i < 16 => Bit(c, i))
  }

  function ByteBits(b: bv8): (r: seq<bool>)
    ensures |r| == 8
  {
    Coefficients(Widen(b))[..8]
  }

  /** The bits of a message in transmission order: least significant bit of each byte first. */
  function MessageBits(m: seq<bv8>): (r: seq<bool>)
    ensures |r| == 8 * |m|
  {
    if m == [] then [] else ByteBits(m[0]) + MessageBits(m[1..])
  }

  lemma BitOfShift(c: bv16, i: nat)
    requires i < 16
    ensures Bit(Shift(c), i) == ((i < 15 && Bit(c, i + 1)) != (Bit(c, 0) && Generator()[i + 1]))
  {
    match i
    case 0 => case 1 => case 2 => case 3 => case 4 => case 5 => case 6 => case 7 =>
    case 8 => case 9 => case 10 => case 11 => case 12 => case 13 => case 14 => case _ =>
  }

  lemma ShiftIsTimesX(c: bv16)
    ensures Coefficients(Shift(c)) == TimesX(Coefficients(c))
  {
    forall i | 0 <= i < 16 ensures Coefficients(Shift(c))[i] == TimesX(Coefficients(c))[i] {
      BitOfShift(c, i);
    }
  }

  lemma BitOfXor(a: bv16, b: bv16, i: nat)
    requires i < 16
    ensures Bit(Add(a, b), i) == (Bit(a, i) != Bit(b, i))
  {
    match i
    case 0 => case 1 => case 2 => case 3 => case 4 => case 5 => case 6 => case 7 =>
    case 8 => case 9 => case 10 => case 11 => case 12 => case 13 => case 14 => case _ =>
  }

  lemma XorCoefficients(a: bv16, b: bv16)
    ensures Coefficients(Add(a, b)) == Xor(Coefficients(a), Coefficients(b))
  {
    forall i | 0 <= i < 16 ensures Coefficients(Add(a, b))[i] == Xor(Coefficients(a), Coefficients(b))[i] {
      BitOfXor(a, b, i);
    }
  }

  lemma NoBits(x: bv16)
    requires forall i :: 0 <= i < 16 ==> !Bit(x, i)
    ensures x == 0
  {
    assert x & 0x0001 == 0 && x & 0x0002 == 0 && x & 0x0004 == 0 && x & 0x0008 == 0 by {
      assert !Bit(x, 0) && !Bit(x, 1) && !Bit(x, 2) && !Bit(x, 3);
    }
    assert x & 0x0010 == 0 && x & 0x0020 == 0 && x & 0x0040 == 0 && x & 0x0080 == 0 by {
      assert !Bit(x, 4) && !Bit(x, 5) && !Bit(x, 6) && !Bit(x, 7);
    }
    assert x & 0x0100 == 0 && x & 0x0200 == 0 && x & 0x0400 == 0 && x & 0x0800 == 0 by {
      assert !Bit(x, 8) && !Bit(x, 9) && !Bit(x, 10) && !Bit(x, 11);
    }
    assert x & 0x1000 == 0 && x & 0x2000 == 0 && x & 0x4000 == 0 && x & 0x8000 == 0 by {
      assert !Bit(x, 12) && !Bit(x, 13) && !Bit(x, 14) && !Bit(x, 15);
    }
  }

  lemma AddIsZero(a: bv16, b: bv16)
    requires Add(a, b) == 0
    ensures a == b
  {
  }

  lemma CoefficientsAreFaithful(a: bv16, b: bv16)
    requires Coefficients(a) == Coefficients(b)
    ensures a == b
  {
    forall i | 0 <= i < 16 ensures !Bit(Add(a, b), i) {
      BitOfXor(a, b, i);
      assert Coefficients(a)[i] == Coefficients(b)[i];
    }
    NoBits(Add(a, b));
    AddIsZero(a, b);
  }

  lemma ByteCoefficients(b: bv8)
    ensures Coefficients(Widen(b)) == ByteBits(b) + Zeros(8)
  {
    var d := Widen(b);
    assert d & 0xFF00 == 0;
    assert !Bit(d, 8) && !Bit(d, 9) && !Bit(d, 10) && !Bit(d, 11);
    assert !Bit(d, 12) && !Bit(d, 13) && !Bit(d, 14) && !Bit(d, 15);
  }

  lemma Shift8IsTimesX8(c: bv16)
    ensures Coefficients(Shift8(c)) == TimesXToThe(Coefficients(c), 8)
  {
    var c1 := Shift(c);
    var c2 := Shift(c1);
    var c3 := Shift(c2);
    var c4 := Shift(c3);
    var c5 := Shift(c4);
    var c6 := Shift(c5);
    var c7 := Shift(c6);
    ShiftIsTimesX(c);
    ShiftIsTimesX(c1);
    ShiftIsTimesX(c2);
    ShiftIsTimesX(c3);
    ShiftIsTimesX(c4);
    ShiftIsTimesX(c5);
    ShiftIsTimesX(c6);
    ShiftIsTimesX(c7);
  }

  /** A table step is eight steps of the bitwise register. */
  lemma TableStepIsRegister(crc: bv16, b: bv8)
    ensures Coefficients(TableStep(crc, b)) == Register(Coefficients(crc), ByteBits(b))
  {
    hide TableStep, Shift8, Add, Widen;
    TableStepIsShift8(crc, b);
    Shift8IsTimesX8(Add(crc, Widen(b)));
    XorCoefficients(crc, Widen(b));
    ByteCoefficients(b);
    RegisterOfPrefix(Coefficients(crc), ByteBits(b));
  }

  // ----- CalculateCRC -----

  /** The loop of CalculateCRC as a function of the bytes it reads. */
  function TableCrc(crc: bv16, data: seq<bv8>): bv16
    decreases |data|
  {
    if data == [] then crc else TableCrc(TableStep(crc, data[0]), data[1..])
  }

  /** What CalculateCRC returns: the int16 register, sign-extended to uint32. */
  function Crc(data: seq<bv8>, inputCRC: bv32): bv32 {
    SignExtend(TableCrc(Truncate(inputCRC), data))
  }

  lemma {:induction false} TableCrcAppend(crc: bv16, a: seq<bv8>, b: seq<bv8>)
    ensures TableCrc(crc, a + b) == TableCrc(TableCrc(crc, a), b)
    decreases |a|
  {
    hide TableStep;
    if a == [] {
      assert a + b == b;
    } else {
      assert (a + b)[1..] == a[1..] + b;
      TableCrcAppend(TableStep(crc, a[0]), a[1..], b);
    }
  }

  /** The table-driven CRC is the bitwise register over the message's bits. */
  lemma {:induction false} TableCrcIsRegister(crc: bv16, data: seq<bv8>)
    ensures Coefficients(TableCrc(crc, data)) == Register(Coefficients(crc), MessageBits(data))
    decreases |data|
  {
    hide TableStep, Coefficients, ByteBits;
    if data != [] {
      TableStepIsRegister(crc, data[0]);
      RegisterAppend(Coefficients(crc), ByteBits(data[0]), MessageBits(data[1..]));
      TableCrcIsRegister(TableStep(crc, data[0]), data[1..]);
    }
  }

  /**
   * CRC-16/ARC: for every message and every starting value, the low 16 bits of the result are the reflected remainder
   * of the message polynomial times x^16 modulo x^16 + x^15 + x^2 + 1.
   */
  lemma CrcIsPolynomialRemainder(data: seq<bv8>, inputCRC: bv32)
    ensures Coefficients(Truncate(Crc(data, inputCRC)))
         == Remainder(Dividend(Coefficients(Truncate(inputCRC)), MessageBits(data)))
  {
    hide Truncate, SignExtend, Coefficients, TableCrc;
    var crc := Truncate(inputCRC);
    TruncateSignExtend(TableCrc(crc, data));
    TableCrcIsRegister(crc, data);
    RegisterIsRemainder(Coefficients(crc), MessageBits(data));
  }

  /** Feeding a result back as the next call's starting value continues the same CRC. */
  lemma CrcContinues(a: seq<bv8>, b: seq<bv8>, inputCRC: bv32)
    ensures Crc(b, Crc(a, inputCRC)) == Crc(a + b, inputCRC)
  {
    hide Truncate, SignExtend, TableCrc;
    var crc := Truncate(inputCRC);
    TruncateSignExtend(TableCrc(crc, a));
    TableCrcAppend(crc, a, b);
  }

  /** A 32-bit number that an int16 was converted to: bits 15 to 31 are all equal. */
  predicate IsSignExtended(v: bv32) {
    v & 0xFFFF_8000 == 0 || v & 0xFFFF_8000 == 0xFFFF_8000
  }

  lemma SignExtendedWord(c: bv16)
    ensures IsSignExtended(SignExtend(c))
  {
  }

  /**
   * What CalculateCRC promises: the low half is the reflected remainder of the message, and the high half repeats the
   * top bit of the low half.
   */
  ghost predicate IsCrcOf(r: bv32, data: seq<bv8>, inputCRC: bv32) {
    && IsSignExtended(r)
    && Coefficients((r & 0xFFFF) as bv16)
       == Remainder(Dividend(Coefficients((inputCRC & 0xFFFF) as bv16), MessageBits(data)))
  }

  lemma LowHalf(v: bv32)
    ensures Coefficients(Truncate(v)) == Coefficients((v & 0xFFFF) as bv16)
  {
    hide Coefficients;
  }

  lemma CrcIsCrc(data: seq<bv8>, inputCRC: bv32)
    ensures IsCrcOf(Crc(data, inputCRC), data, inputCRC)
  {
    hide Crc, IsCrcOf, IsSignExtended, Coefficients, Truncate, Remainder, Dividend, MessageBits;
    CrcIsPolynomialRemainder(data, inputCRC);
    CrcIsSignExtended(data, inputCRC);
    LowHalf(inputCRC);
    LowHalf(Crc(data, inputCRC));
    IsCrcIfBoth(Crc(data, inputCRC), data, inputCRC);
  }

  lemma CrcIsSignExtended(data: seq<bv8>, inputCRC: bv32)
    ensures IsSignExtended(Crc(data, inputCRC))
  {
    hide IsSignExtended, SignExtend, TableCrc;
    SignExtendedWord(TableCrc(Truncate(inputCRC), data));
  }

  lemma IsCrcIfBoth(r: bv32, data: seq<bv8>, inputCRC: bv32)
    requires IsSignExtended(r)
    requires Coefficients((r & 0xFFFF) as bv16)
          == Remainder(Dividend(Coefficients((inputCRC & 0xFFFF) as bv16), MessageBits(data)))
    ensures IsCrcOf(r, data, inputCRC)
  {
    hide IsSignExtended, Coefficients, Remainder, Dividend, MessageBits;
  }

  /** The register 0xC0C1 is returned as a negative number. */
  lemma CrcOfOneByte()
    ensures Crc([1], 0) == 0xFFFF_C0C1
  {
    assert CrcTable(1) == 0xC0C1;
    assert TableStep(0, 1) == 0xC0C1;
    assert TableCrc(0, [1]) == TableStep(0, 1);
  }

  method CalculateCRC(data: seq<bv8>, inputCRC: bv32) returns (r: bv32)
    requires |data| < 0x8000_0000  // the loop counter is an int32
    ensures r == Crc(data, inputCRC)
    ensures IsCrcOf(r, data, inputCRC)
  {
    CrcIsCrc(data, inputCRC);
    hide TableStep, Truncate, IsCrcOf, IsSignExtended;
    var crc := Truncate(0xFFFF & inputCRC);
    TruncateMasked(inputCRC);
    var i := 0;
    while i < |data|
      invariant 0 <= i <= |data|
      invariant TableCrc(crc, data[i..]) == TableCrc(Truncate(inputCRC), data)
    {
      assert data[i..][1..] == data[i + 1..];
      crc := TableStep(crc, data[i]);
      i := i + 1;
    }
    r := SignExtend(crc);
  }

  lemma TruncateMasked(v: bv32)
    ensures Truncate(0xFFFF & v) == Truncate(v)
  {
  }

  // ----- The tool's main loop -----

  /** An open file and its read position. A read may deliver fewer bytes than asked for, or fail. */
  class FileDescriptor {
    const content: seq<bv8>
    var offset: nat
    ghost var readFailed: bool

    constructor (content: seq<bv8>)
      ensures this.content == content && offset == 0 && !readFailed
    {
      this.content, offset, readFailed := content, 0, false;
    }

    method Read(size: nat) returns (readSize: int, buffer: seq<bv8>)
      requires size > 0
      modifies this
      ensures readFailed == (old(readFailed) || readSize < 0)
      ensures readSize < 0 ==> offset == old(offset)
      ensures readSize >= 0 ==>
        && |buffer| == readSize <= size
        && offset == old(offset) + readSize
        && (readSize == 0 <==> old(offset) >= |content|)
        && (readSize > 0 ==> offset <= |content| && buffer == content[old(offset)..offset])
    {
      buffer := [];
      if * {
        readSize, readFailed := -1, true;
      } else if offset >= |content| {
        readSize := 0;
      } else {
        readSize :| 1 <= readSize <= size && offset + readSize <= |content|;
        buffer := content[offset..offset + readSize];
        offset := offset + readSize;
      }
    }
  }

  datatype Report = ReadError | Report(fileSize: nat, fileCRC: bv32)

  function Payload(content: seq<bv8>, skipSize: nat): seq<bv8> {
    if skipSize <= |content| then content[skipSize..] else []
  }

  /**
   * From the seek past the headers to the end of the file. However the reads split the file, the report is the length
   * and the CRC of everything after the headers.
   */
  method ReportCrc(fd: FileDescriptor, skipSize: nat) returns (report: Report)
    requires !fd.readFailed
    modifies fd
    ensures report.ReadError? <==> fd.readFailed
    ensures report.Report? ==>
      var payload := Payload(fd.content, skipSize);
      report == Report(|payload|, Crc(payload, 0)) && IsCrcOf(report.fileCRC, payload, 0)
  {
    hide Crc, IsCrcOf;
    fd.offset := skipSize;
    var fileSize, fileCRC := 0, 0;
    ghost var payload := Payload(fd.content, skipSize);
    CrcOfNothing();
    while true
      invariant !fd.readFailed
      invariant fd.offset == skipSize + fileSize && fileSize <= |payload|
      invariant fileCRC == Crc(payload[..fileSize], 0)
      decreases |payload| - fileSize
    {
      var readSize, buffer := fd.Read(100);
      if readSize < 0 {
        return ReadError;
      }
      ghost var before := payload[..fileSize];
      fileCRC := CalculateCRC(buffer, fileCRC);
      CrcContinues(before, buffer, 0);
      fileSize := fileSize + readSize;
      assert payload[..fileSize] == before + buffer;
      if readSize == 0 {
        break;
      }
    }
    assert payload[..fileSize] == payload;
    CrcIsCrc(payload, 0);
    return Report(fileSize, fileCRC);
  }

  lemma CrcOfNothing()
    ensures Crc([], 0) == 0
  {
  }
}
