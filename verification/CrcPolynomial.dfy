/**
 * What the CRC-16 is: for every message, a remainder of polynomial division; and
 * two known values.
 */
module CrcPolynomial {
  import opened Bytes
  import opened Bits
  import opened Polynomials
  import opened Crc16

  /** The message as a polynomial, its first bit the highest power: the bits of each byte from the lowest up. */
  function MessagePolynomial(data: seq<byte>): nat {
    if data == [] then 0
    else 0x100 * MessagePolynomial(data[..|data| - 1]) + Mirrored(data[|data| - 1], 8)
  }

  lemma TopsOut(a: nat, b: nat)
    requires a < 0x1_0000 && b < 0x1_0000
    ensures Xor(0x1_0000 + a, 0x1_0000 + b) == Xor(a, b)
  {
    hide Xor;
    PowersOfTwo();
    XorDisjoint(a, 1, 16);
    XorDisjoint(b, 1, 16);
    XorRegroup(a, 0x1_0000, b, 0x1_0000);
    XorSelf(0x1_0000);
    XorZero(Xor(a, b));
  }

  lemma {:induction false} MirroredShifted(c: nat, n: nat, k: nat)
    ensures Mirrored(Doubled(c, k), n + k) == Mirrored(c, n)
  {
    if k > 0 {
      MirroredShifted(c, n, k - 1);
      DoubledBit(0, n + k - 1);
      assert Mirrored(Doubled(c, k), n + k) == Doubled(0, n + k - 1) + Mirrored(Doubled(c, k - 1), n + k - 1);
    }
  }

  lemma MirroredPoly()
    ensures Mirrored(0xA001, 16) == 0x8005
  {
    PowersOfTwo();
    MirroredShifted(5, 3, 12);
    DoubledSum(5, 8, 4);
    assert Doubled(5, 4) == 0x50 && Doubled(5, 12) == 0x5000;
    assert Mirrored(1, 1) == 1 && Mirrored(2, 2) == 1 && Mirrored(5, 3) == 5;
    assert Mirrored(0xA001, 16) == Doubled(1, 15) + Mirrored(0x5000, 15);
  }

  /** In mirrored order one turn of the loop is one step of long division by x^16 + x^15 + x^2 + 1. */
  lemma ShiftIsNext(c: uint16)
    ensures Mirrored(Shift(c), 16) == Next(Mirrored(c, 16), 0x1_8005, 16)
  {
    hide Xor;
    PowersOfTwo();
    var h := c / 2;
    var m := Mirrored(h, 15);
    MirroredBound(h, 15);
    MirroredWider(h, 15);
    DoubledBit(c % 2, 15);
    assert Mirrored(c, 16) == Doubled(c % 2, 15) + m;
    if c % 2 == 1 {
      MirroredXor(h, POLY, 16);
      MirroredPoly();
      TopsOut(2 * m, 0x8005);
    }
    hide Mirrored;
  }

  lemma {:induction false} ShiftsAreNext(c: uint16, n: nat, j: nat)
    requires IsRemainder(Mirrored(c, 16), n, 0x1_8005, 16)
    ensures IsRemainder(Mirrored(Shifts(c, j), 16), Doubled(n, j), 0x1_8005, 16)
  {
    hide Mirrored, IsRemainder, Shift;
    if j > 0 {
      ShiftsAreNext(c, n, j - 1);
      ShiftIsNext(Shifts(c, j - 1));
      PowersOfTwo();
      assert Doubled(1, 17) == 2 * Doubled(1, 16);
      NextIsRemainder(Mirrored(Shifts(c, j - 1), 16), Doubled(n, j - 1), 0x1_8005, 16);
    }
  }

  lemma AbsorbIsRemainder(c: uint16, b: byte, n: nat)
    requires IsRemainder(Mirrored(c, 16), 0x1_0000 * n, 0x1_8005, 16)
    ensures IsRemainder(Mirrored(Absorb(c, b), 16), 0x1_0000 * (0x100 * n + Mirrored(b, 8)), 0x1_8005, 16)
  {
    hide Xor, Mirrored, IsRemainder, Shifts;
    PowersOfTwo();
    Xor16(c, b);
    MirroredXor(c, b, 16);
    MirroredMuchWider(b, 8, 8);
    MirroredBound(b, 8);
    var low := 0x100 * Mirrored(b, 8);
    AddedIsRemainder(Mirrored(c, 16), 0x1_0000 * n, low, 0x1_8005, 16);
    XorDisjoint(low, n, 16);
    Doubled16(n);
    XorComm(low, 0x1_0000 * n);
    ShiftsAreNext(Xor(c, b), 0x1_0000 * n + low, 8);
    assert 0x100 * (0x1_0000 * n + low) == 0x1_0000 * (0x100 * n + Mirrored(b, 8));
  }

  lemma Doubled16(n: nat)
    ensures Doubled(n, 16) == 0x1_0000 * n
  {
    PowersOfTwo();
    DoubledSum(n, 8, 8);
    assert Doubled(Doubled(n, 8), 8) == 0x100 * (0x100 * n);
  }

  /**
   * What the CRC is. For every message, the register read from its other end is
   * the remainder, and the only one, of the message polynomial shifted up by 16
   * on division by x^16 + x^15 + x^2 + 1.
   */
  lemma {:induction false} CrcIsRemainder(data: seq<byte>, r: nat)
    ensures IsRemainder(r, 0x1_0000 * MessagePolynomial(data), 0x1_8005, 16) <==> r == Mirrored(Crc(data), 16)
  {
    hide Mirrored, IsRemainder, Absorb;
    CrcDivides(data);
    PowersOfTwo();
    assert Doubled(1, 17) == 2 * Doubled(1, 16);
    if IsRemainder(r, 0x1_0000 * MessagePolynomial(data), 0x1_8005, 16) {
      RemainderIsUnique(r, Mirrored(Crc(data), 16), 0x1_0000 * MessagePolynomial(data), 0x1_8005, 16);
    }
  }

  lemma {:induction false} CrcDivides(data: seq<byte>)
    ensures IsRemainder(Mirrored(Crc(data), 16), 0x1_0000 * MessagePolynomial(data), 0x1_8005, 16)
  {
    hide Mirrored, IsRemainder, Absorb;
    if data == [] {
      ZeroRemainder();
    } else {
      var init := data[..|data| - 1];
      CrcDivides(init);
      AbsorbIsRemainder(Crc(init), data[|data| - 1], MessagePolynomial(init));
    }
  }

  lemma ZeroRemainder()
    ensures IsRemainder(Mirrored(0, 16), 0, 0x1_8005, 16)
  {
    hide Xor;
    PowersOfTwo();
    MirroredZero(16);
    TimesZero(0x1_8005);
    XorZero(0);
    assert DividesTo(0, 0x1_8005, 16, 0, 0);
  }

  lemma {:induction false} MirroredZero(n: nat)
    ensures Mirrored(0, n) == 0
  {
    if n > 0 {
      DoubledBit(0, n - 1);
      MirroredZero(n - 1);
    }
  }

  // ------------------------------------------------------------ known values

  /** A number in two parts, the upper one changed. */
  lemma XorHigh(low: nat, a: nat, b: nat, n: nat)
    requires low < Doubled(1, n)
    ensures Xor(low + Doubled(a, n), Doubled(b, n)) == low + Doubled(Xor(a, b), n)
  {
    hide Xor;
    XorDisjoint(low, a, n);
    XorDisjoint(low, Xor(a, b), n);
    XorAssoc(low, Doubled(a, n), Doubled(b, n));
    XorDoubled(a, b, n);
  }

  /** The shift in arithmetic: the polynomial turns over bits 15, 13 and 0. */
  function ArithmeticShift(c: uint16): uint16 {
    var h := c / 2;
    if c % 2 == 0 then h
    else
      2 * (h / 2 % 0x1000) + 0x2000 * (if h < 0x2000 then 5 else if h < 0x4000 then 4 else if h < 0x6000 then 7 else 6)
      + 1 - h % 2
  }

  lemma FourTimesTwelve(y: nat)
    ensures Doubled(y, 12) == 0x1000 * y
  {
    PowersOfTwo();
    DoubledSum(y, 8, 4);
    SixteenTimes(Doubled(y, 8));
    assert Doubled(y, 8) == 0x100 * y;
  }

  lemma SmallXors(a: nat)
    requires a < 4
    ensures Xor(a, 5) == if a == 0 then 5 else if a == 1 then 4 else if a == 2 then 7 else 6
  {
    assert Xor(0, 2) == 2 && Xor(1, 2) == 3 && Xor(1, 1) == 0;
  }

  lemma ShiftIsArithmetic(c: uint16)
    ensures Shift(c) == ArithmeticShift(c)
  {
    hide Xor;
    var h := c / 2;
    if c % 2 == 1 {
      var m, a := h / 2 % 0x1000, h / 0x2000;
      XorUnfolds(h, POLY);
      FourTimesTwelve(1);
      FourTimesTwelve(a);
      FourTimesTwelve(5);
      FourTimesTwelve(Xor(a, 5));
      assert h / 2 == m + 0x1000 * a;
      XorHigh(m, a, 5, 12);
      SmallXors(a);
      hide Doubled;
    }
  }

  /** Eight turns, register by register. */
  lemma EightShifts(c: uint16, c1: uint16, c2: uint16, c3: uint16, c4: uint16,
                    c5: uint16, c6: uint16, c7: uint16, c8: uint16)
    requires c1 == ArithmeticShift(c) && c2 == ArithmeticShift(c1) && c3 == ArithmeticShift(c2)
    requires c4 == ArithmeticShift(c3) && c5 == ArithmeticShift(c4) && c6 == ArithmeticShift(c5)
    requires c7 == ArithmeticShift(c6) && c8 == ArithmeticShift(c7)
    ensures Shifts(c, 8) == c8
  {
    hide Shift, ArithmeticShift;
    ShiftIsArithmetic(c);
    ShiftIsArithmetic(c1);
    ShiftIsArithmetic(c2);
    ShiftIsArithmetic(c3);
    ShiftIsArithmetic(c4);
    ShiftIsArithmetic(c5);
    ShiftIsArithmetic(c6);
    ShiftIsArithmetic(c7);
    assert Shifts(c, 1) == c1;
    assert Shifts(c, 2) == c2;
    assert Shifts(c, 3) == c3;
    assert Shifts(c, 4) == c4;
    assert Shifts(c, 5) == c5;
    assert Shifts(c, 6) == c6;
    assert Shifts(c, 7) == c7;
  }

  /** A digit meets only the lowest two nibbles of the register. */
  lemma XorDigit(c: uint16, d: nat, lo: nat, hi: nat)
    requires d < 0x10 && lo == Xor(c % 0x10, d) && hi == Xor(c / 0x10 % 0x10, 3)
    ensures Xor(c, 0x30 + d) == 0x100 * (c / 0x100) + 0x10 * hi + lo
  {
    hide Xor;
    var x, y, z := c % 0x10, c / 0x10 % 0x10, c / 0x100;
    NibbleXor(x, y + 0x10 * z, d, 3);
    NibbleXor(y, z, 3, 0);
    XorZero(z);
  }

  lemma NibbleXor(x: nat, a: nat, y: nat, b: nat)
    requires x < 0x10 && y < 0x10
    ensures Xor(x + 0x10 * a, y + 0x10 * b) == Xor(x, y) + 0x10 * Xor(a, b)
  {
    hide Xor;
    SixteenTimes(1);
    SixteenTimes(a);
    SixteenTimes(b);
    SixteenTimes(Xor(a, b));
    XorDisjoint(x, a, 4);
    XorDisjoint(y, b, 4);
    XorRegroup(x, Doubled(a, 4), y, Doubled(b, 4));
    XorDoubled(a, b, 4);
    XorBound(x, y, 4);
    XorDisjoint(Xor(x, y), Xor(a, b), 4);
  }

  lemma SixteenTimes(y: nat)
    ensures Doubled(y, 4) == 0x10 * y
  {
    assert Doubled(y, 1) == 2 * y && Doubled(y, 2) == 4 * y && Doubled(y, 3) == 8 * y;
  }

  lemma NibbleSums()
    ensures Xor(0, 1) == 1
    ensures Xor(0, 3) == 3
    ensures Xor(1, 2) == 3
    ensures Xor(4, 3) == 7
    ensures Xor(4, 4) == 0
    ensures Xor(4, 7) == 3
    ensures Xor(5, 3) == 6
    ensures Xor(5, 6) == 3
    ensures Xor(6, 3) == 5
    ensures Xor(8, 8) == 0
    ensures Xor(9, 3) == 10
    ensures Xor(10, 5) == 15
    ensures Xor(11, 3) == 8
    ensures Xor(12, 3) == 15
    ensures Xor(13, 9) == 4
    ensures Xor(14, 3) == 13
  {
  }

  lemma FirstDigits()
    ensures Absorb(0x0, 0x31) == 0xD4C1
    ensures Absorb(0xD4C1, 0x32) == 0x4594
    ensures Absorb(0x4594, 0x33) == 0xBA04
  {
    NibbleSums();
    hide Xor, Shifts;
    XorDigit(0x0, 1, 1, 3);
    EightShifts(0x31, 0xA019, 0xF00D, 0xD807, 0xCC02, 0x6601, 0x9301, 0xE981, 0xD4C1);
    XorDigit(0xD4C1, 2, 3, 15);
    EightShifts(0xD4F3, 0xCA78, 0x653C, 0x329E, 0x194F, 0xACA6, 0x5653, 0x8B28, 0x4594);
    XorDigit(0x4594, 3, 7, 10);
    EightShifts(0x45A7, 0x82D2, 0x4169, 0x80B5, 0xE05B, 0xD02C, 0x6816, 0x340B, 0xBA04);
  }

  lemma MiddleDigits()
    ensures Absorb(0xBA04, 0x34) == 0x14BA
    ensures Absorb(0x14BA, 0x35) == 0xA455
    ensures Absorb(0xA455, 0x36) == 0x29E4
  {
    NibbleSums();
    hide Xor, Shifts;
    XorDigit(0xBA04, 4, 0, 3);
    EightShifts(0xBA30, 0x5D18, 0x2E8C, 0x1746, 0xBA3, 0xA5D0, 0x52E8, 0x2974, 0x14BA);
    XorDigit(0x14BA, 5, 15, 8);
    EightShifts(0x148F, 0xAA46, 0x5523, 0x8A90, 0x4548, 0x22A4, 0x1152, 0x8A9, 0xA455);
    XorDigit(0xA455, 6, 3, 6);
    EightShifts(0xA463, 0xF230, 0x7918, 0x3C8C, 0x1E46, 0xF23, 0xA790, 0x53C8, 0x29E4);
  }

  lemma LastDigits()
    ensures Absorb(0x29E4, 0x37) == 0x9D68
    ensures Absorb(0x9D68, 0x38) == 0x3C9D
    ensures Absorb(0x3C9D, 0x39) == 0xBB3D
  {
    NibbleSums();
    hide Xor, Shifts;
    XorDigit(0x29E4, 7, 3, 13);
    EightShifts(0x29D3, 0xB4E8, 0x5A74, 0x2D3A, 0x169D, 0xAB4F, 0xF5A6, 0x7AD3, 0x9D68);
    XorDigit(0x9D68, 8, 0, 5);
    EightShifts(0x9D50, 0x4EA8, 0x2754, 0x13AA, 0x9D5, 0xA4EB, 0xF274, 0x793A, 0x3C9D);
    XorDigit(0x3C9D, 9, 4, 10);
    EightShifts(0x3CA4, 0x1E52, 0xF29, 0xA795, 0xF3CB, 0xD9E4, 0x6CF2, 0x3679, 0xBB3D);
  }

  /** One more byte. */
  lemma CrcNext(data: seq<byte>, c: uint16, b: byte, d: uint16) returns (longer: seq<byte>)
    requires Crc(data) == c && Absorb(c, b) == d
    ensures longer == data + [b] && Crc(longer) == d
  {
    hide Absorb;
    longer := data + [b];
    assert longer[..|data|] == data;
  }

  lemma LoneBit()
    ensures Absorb(0, 0x80) == 0xA001
  {
    hide Xor;
    XorZero(0x80);
    EightShifts(0x80, 0x40, 0x20, 0x10, 0x8, 0x4, 0x2, 0x1, 0xA001);
    hide Shifts;
  }

  /** Known values: of the single byte 0x80, and of the digits "123456789". */
  lemma CheckValues()
    ensures Crc([0x80]) == 0xA001
    ensures Crc([0x31, 0x32, 0x33, 0x34, 0x35, 0x36, 0x37, 0x38, 0x39]) == 0xBB3D
  {
    LoneBit();
    FirstDigits();
    MiddleDigits();
    LastDigits();
    hide Absorb;
    assert Crc([]) == 0;
    hide Crc;
    var single := CrcNext([], 0, 0x80, 0xA001);
    assert single == [0x80];
    var s := CrcNext([], 0x0, 0x31, 0xD4C1);
    s := CrcNext(s, 0xD4C1, 0x32, 0x4594);
    s := CrcNext(s, 0x4594, 0x33, 0xBA04);
    s := CrcNext(s, 0xBA04, 0x34, 0x14BA);
    s := CrcNext(s, 0x14BA, 0x35, 0xA455);
    s := CrcNext(s, 0xA455, 0x36, 0x29E4);
    s := CrcNext(s, 0x29E4, 0x37, 0x9D68);
    s := CrcNext(s, 0x9D68, 0x38, 0x3C9D);
    s := CrcNext(s, 0x3C9D, 0x39, 0xBB3D);
    assert s == [0x31, 0x32, 0x33, 0x34, 0x35, 0x36, 0x37, 0x38, 0x39];
  }
}
