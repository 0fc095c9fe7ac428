/** The bitwise CRC-16 of src/uart/FORTJoystick/FORTJoystickHelpers.cpp and its algebra. */
module Crc16 {
  import opened Bytes
  import opened Bits

  const POLY: uint16 := 0xA001

  /** One turn of the inner loop. */
  function Shift(c: uint16): uint16 {
    Xor16(c / 2, POLY);
    if c % 2 == 1 then Xor(c / 2, POLY) else c / 2
  }

  /** The inverse of Shift: the top bit of a shifted register tells which branch was taken. */
  function Unshift(c: uint16): uint16 {
    TopBit(c);
    if c >= 0x8000 then 2 * Xor(c, POLY) + 1 else 2 * c
  }

  lemma TopBit(c: uint16)
    ensures c >= 0x8000 ==> Xor(c, POLY) < 0x8000
    ensures c < 0x8000 ==> 0x8000 <= Xor(c, POLY) < 0x1_0000
  {
    hide Xor;
    PowersOfTwo();
    Xor16(c, POLY);
    if c < 0x8000 {
      XorTop(c, POLY, 15);
    } else if Xor(c, POLY) >= 0x8000 {
      XorHighTops(c, POLY);
    }
  }

  lemma XorHighTops(c: uint16, d: uint16)
    requires c >= 0x8000 && d >= 0x8000
    ensures Xor(c, d) < 0x8000
  {
    hide Xor;
    PowersOfTwo();
    var low := c - 0x8000;
    XorDisjoint(low, 1, 15);
    XorDisjoint(d - 0x8000, 1, 15);
    XorRegroup(low, 0x8000, d - 0x8000, 0x8000);
    XorSelf(0x8000);
    XorBound(low, d - 0x8000, 15);
    XorZero(Xor(low, d - 0x8000));
  }

  function Shifts(c: uint16, n: nat): uint16 {
    if n == 0 then c else Shift(Shifts(c, n - 1))
  }

  /** One turn of the outer loop. */
  function Absorb(c: uint16, b: byte): uint16 {
    Xor16(c, b);
    Shifts(Xor(c, b), 8)
  }

  /** The register after data, started from c. */
  function CrcFrom(c: uint16, data: seq<byte>): uint16 {
    if data == [] then c
    else Absorb(CrcFrom(c, data[..|data| - 1]), data[|data| - 1])
  }

  function Crc(data: seq<byte>): uint16 {
    CrcFrom(0, data)
  }

  method ComputeCrc16(data: seq<byte>) returns (crc: uint16)
    ensures crc == Crc(data)
  {
    crc := 0x0000;
    for i := 0 to |data|
      invariant crc == Crc(data[..i])
    {
      assert data[..i + 1][..i] == data[..i];
      Xor16(crc, data[i]);
      crc := Xor(crc, data[i]);
      ghost var start := crc;
      for j := 0 to 8
        invariant crc == Shifts(start, j)
      {
        Xor16(crc / 2, POLY);
        if crc % 2 == 1 {
          crc := Xor(crc / 2, POLY);
        } else {
          crc := crc / 2;
        }
      }
    }
    assert data[..|data|] == data;
  }

  // -------------------------------------------------------------- bijection

  lemma ShiftIsBijective(c: uint16)
    ensures Unshift(Shift(c)) == c
    ensures Shift(Unshift(c)) == c
  {
    hide Xor;
    UnshiftShift(c);
    ShiftUnshift(c);
  }

  lemma UnshiftShift(c: uint16)
    ensures Unshift(Shift(c)) == c
  {
    hide Xor;
    var h := c / 2;
    TopBit(h);
    XorTwice(h, POLY);
    if c % 2 == 1 {
      assert Unshift(Shift(c)) == 2 * h + 1;
    } else {
      assert Unshift(Shift(c)) == 2 * h;
    }
  }

  lemma ShiftUnshift(c: uint16)
    ensures Shift(Unshift(c)) == c
  {
    hide Xor;
    TopBit(c);
    var x := Xor(c, POLY);
    if c >= 0x8000 {
      XorTwice(c, POLY);
      ShiftedParts(2 * x + 1);
      assert Fold(x, true) == c;
    } else {
      ShiftedParts(2 * c);
    }
  }

  lemma XorTwice(a: nat, b: nat)
    ensures Xor(Xor(a, b), b) == a
  {
    hide Xor;
    XorAssoc(a, b, b);
    XorSelf(b);
    XorZero(a);
  }

  lemma {:induction false} ShiftsInjective(c: uint16, d: uint16, n: nat)
    requires Shifts(c, n) == Shifts(d, n)
    ensures c == d
  {
    hide Xor;
    if n > 0 {
      ShiftIsBijective(Shifts(c, n - 1));
      ShiftIsBijective(Shifts(d, n - 1));
      ShiftsInjective(c, d, n - 1);
    }
  }

  /** Reading the same bytes never makes two different registers equal. */
  lemma {:induction false} CrcFromInjective(c: uint16, d: uint16, data: seq<byte>)
    requires CrcFrom(c, data) == CrcFrom(d, data)
    ensures c == d
  {
    hide Xor;
    if data != [] {
      var init, b := data[..|data| - 1], data[|data| - 1];
      var c', d' := CrcFrom(c, init), CrcFrom(d, init);
      Xor16(c', b);
      Xor16(d', b);
      ShiftsInjective(Xor(c', b), Xor(d', b), 8);
      XorComm(c', b);
      XorComm(d', b);
      XorCancel(b, c', d');
      CrcFromInjective(c, d, init);
    }
  }

  // -------------------------------------------------------------- linearity

  lemma ShiftLinear(c: uint16, d: uint16)
    ensures Xor(c, d) < 0x1_0000
    ensures Shift(Xor(c, d)) == Xor(Shift(c), Shift(d))
  {
    hide Xor;
    Xor16(c, d);
    XorLow(c, d);
    var x := Xor(c, d);
    var p, q := c % 2 == 1, d % 2 == 1;
    Folded(c / 2, d / 2, p, q);
    assert (x % 2 == 1) == (p != q);
    ShiftedParts(c);
    ShiftedParts(d);
    ShiftedParts(x);
  }

  /** What one shift makes of the upper bits h, given the bit that falls out. */
  function Fold(h: nat, out: bool): nat {
    if out then Xor(h, POLY) else h
  }

  lemma Folded(h: nat, k: nat, p: bool, q: bool)
    ensures Xor(Fold(h, p), Fold(k, q)) == Fold(Xor(h, k), p != q)
  {
    hide Xor;
    PolyOnEitherSide(h, k);
  }

  lemma ShiftedParts(c: uint16)
    ensures Shift(c) == Fold(c / 2, c % 2 == 1)
  {
    hide Xor;
  }

  lemma PolyOnEitherSide(h: nat, k: nat)
    ensures Xor(Xor(h, POLY), Xor(k, POLY)) == Xor(h, k)
    ensures Xor(h, Xor(k, POLY)) == Xor(Xor(h, k), POLY)
    ensures Xor(Xor(h, POLY), k) == Xor(Xor(h, k), POLY)
  {
    hide Xor;
    XorRegroup(h, POLY, k, POLY);
    XorSelf(POLY);
    XorZero(Xor(h, k));
    XorAssoc(h, k, POLY);
    XorAssoc(h, POLY, k);
    XorComm(k, POLY);
  }

  lemma {:induction false} ShiftsLinear(c: uint16, d: uint16, n: nat)
    ensures Xor(c, d) < 0x1_0000
    ensures Shifts(Xor(c, d), n) == Xor(Shifts(c, n), Shifts(d, n))
  {
    hide Xor;
    Xor16(c, d);
    if n > 0 {
      ShiftsLinear(c, d, n - 1);
      ShiftLinear(Shifts(c, n - 1), Shifts(d, n - 1));
    }
  }

  /** The bytewise exclusive or of two messages. */
  function XorSeq(a: seq<byte>, b: seq<byte>): (x: seq<byte>)
    requires |a| == |b|
    ensures |x| == |a|
  {
    if a == [] then []
    else
      Xor8(a[|a| - 1], b[|b| - 1]);
      XorSeq(a[..|a| - 1], b[..|b| - 1]) + [Xor(a[|a| - 1], b[|b| - 1])]
  }

  /** CRC-16 is linear over exclusive or on messages of equal length. */
  lemma {:induction false} CrcFromLinear(c: uint16, d: uint16, a: seq<byte>, b: seq<byte>)
    requires |a| == |b|
    ensures Xor(c, d) < 0x1_0000
    ensures CrcFrom(Xor(c, d), XorSeq(a, b)) == Xor(CrcFrom(c, a), CrcFrom(d, b))
  {
    hide Xor;
    Xor16(c, d);
    if a != [] {
      var n := |a| - 1;
      CrcFromLinear(c, d, a[..n], b[..n]);
      var c', d' := CrcFrom(c, a[..n]), CrcFrom(d, b[..n]);
      Xor16(c', a[n]);
      Xor16(d', b[n]);
      XorRegroup(c', d', a[n], b[n]);
      ShiftsLinear(Xor(c', a[n]), Xor(d', b[n]), 8);
    }
  }

  lemma {:induction false} CrcLinear(a: seq<byte>, b: seq<byte>)
    requires |a| == |b|
    ensures Crc(XorSeq(a, b)) == Xor(Crc(a), Crc(b))
  {
    hide Xor;
    XorZero(0);
    CrcFromLinear(0, 0, a, b);
  }

  // -------------------------------------------------- two bytes at a time

  /** The little-endian word of two consecutive bytes. */
  function Word(lo: byte, hi: byte): uint16 {
    lo + 0x100 * hi
  }

  lemma {:induction false} ShiftsAdd(c: uint16, m: nat, n: nat)
    ensures Shifts(Shifts(c, m), n) == Shifts(c, m + n)
  {
    hide Xor;
    if n > 0 {
      ShiftsAdd(c, m, n - 1);
    }
  }

  /** Bits above the lowest n come down unchanged in n turns. */
  lemma {:induction false} HighBitsComeDown(y: nat, n: nat)
    requires Doubled(y, n) < 0x1_0000
    ensures y < 0x1_0000 && Shifts(Doubled(y, n), n) == y
    decreases n
  {
    hide Xor;
    if n > 0 {
      DoubledTwice(y, n - 1);
      HighBitsComeDown(2 * y, n - 1);
    }
  }

  lemma {:induction false} DoubledTwice(y: nat, n: nat)
    ensures Doubled(2 * y, n) == Doubled(y, n + 1)
  {
    if n > 0 {
      DoubledTwice(y, n - 1);
    }
  }

  lemma TwoBytes(c: uint16, lo: byte, hi: byte)
    ensures Xor(c, Word(lo, hi)) < 0x1_0000
    ensures Absorb(Absorb(c, lo), hi) == Shifts(Xor(c, Word(lo, hi)), 16)
  {
    hide Xor;
    Xor16(c, Word(lo, hi));
    Xor16(c, lo);
    var low, word := Xor(c, lo), Xor(c, Word(lo, hi));
    WordAbsorbed(c, lo, hi);
    ByteComesDown(hi);
    ShiftsLinear(low, 0x100 * hi, 8);
    ShiftsAdd(word, 8, 8);
  }

  lemma WordAbsorbed(c: uint16, lo: byte, hi: byte)
    ensures Xor(Xor(c, lo), 0x100 * hi) == Xor(c, Word(lo, hi))
  {
    hide Xor;
    PowersOfTwo();
    XorAssoc(c, lo, 0x100 * hi);
    assert Doubled(hi, 8) == 0x100 * hi;
    XorDisjoint(lo, hi, 8);
  }

  lemma ByteComesDown(hi: byte)
    ensures Shifts(0x100 * hi, 8) == hi
  {
    hide Xor;
    PowersOfTwo();
    assert Doubled(hi, 8) == 0x100 * hi;
    HighBitsComeDown(hi, 8);
  }

  lemma {:induction false} CrcFromConcat(c: uint16, a: seq<byte>, b: seq<byte>)
    ensures CrcFrom(c, a + b) == CrcFrom(CrcFrom(c, a), b)
    decreases |b|
  {
    hide Xor;
    if b == [] {
      assert a + b == a;
    } else {
      var b' := b[..|b| - 1];
      assert (a + b)[..|a + b| - 1] == a + b';
      CrcFromConcat(c, a, b');
    }
  }

  lemma CrcFromTwo(c: uint16, lo: byte, hi: byte)
    ensures Xor(c, Word(lo, hi)) < 0x1_0000
    ensures CrcFrom(c, [lo, hi]) == Shifts(Xor(c, Word(lo, hi)), 16)
  {
    hide Xor;
    var both: seq<byte> := [lo, hi];
    assert both[..1] == [lo];
    assert CrcFrom(c, both) == Absorb(CrcFrom(c, [lo]), hi);
    CrcFromOne(c, lo);
    TwoBytes(c, lo, hi);
  }

  lemma CrcFromOne(c: uint16, b: byte)
    ensures CrcFrom(c, [b]) == Absorb(c, b)
  {
    hide Xor;
    var one: seq<byte> := [b];
    assert one[..0] == [];
  }

  // ---------------------------------------------------------- error detection

  /** Messages of equal length, different, that agree outside positions at and at + 1. */
  ghost predicate DifferWithin(a: seq<byte>, b: seq<byte>, at: nat) {
    && |a| == |b| && a != b
    && forall k :: 0 <= k < |a| && k != at && k != at + 1 ==> a[k] == b[k]
  }

  /** One or two bytes, read from the same register, are told apart by the register they leave. */
  lemma ShortBlockInjective(c: uint16, x: seq<byte>, y: seq<byte>)
    requires |x| == |y| <= 2 && CrcFrom(c, x) == CrcFrom(c, y)
    ensures x == y
  {
    hide Xor;
    if |x| == 2 {
      assert x == [x[0], x[1]] && y == [y[0], y[1]];
      CrcFromTwo(c, x[0], x[1]);
      CrcFromTwo(c, y[0], y[1]);
      ShiftsInjective(Xor(c, Word(x[0], x[1])), Xor(c, Word(y[0], y[1])), 16);
      XorCancel(c, Word(x[0], x[1]), Word(y[0], y[1]));
    } else if |x| == 1 {
      assert x == [x[0]] && y == [y[0]];
      CrcFromOne(c, x[0]);
      CrcFromOne(c, y[0]);
      Xor16(c, x[0]);
      Xor16(c, y[0]);
      ShiftsInjective(Xor(c, x[0]), Xor(c, y[0]), 8);
      XorCancel(c, x[0], y[0]);
    }
  }

  lemma SameEnds(head: seq<byte>, x: seq<byte>, y: seq<byte>, tail: seq<byte>, c: uint16)
    requires |x| == |y| <= 2
    requires CrcFrom(c, head + x + tail) == CrcFrom(c, head + y + tail)
    ensures x == y
  {
    hide Xor;
    CrcFromConcat(c, head + x, tail);
    CrcFromConcat(c, head + y, tail);
    CrcFromInjective(CrcFrom(c, head + x), CrcFrom(c, head + y), tail);
    CrcFromConcat(c, head, x);
    CrcFromConcat(c, head, y);
    ShortBlockInjective(CrcFrom(c, head), x, y);
  }

  /** Any change confined to two adjacent bytes, anywhere in a message of any length, changes the CRC. */
  lemma AdjacentErrorDetected(a: seq<byte>, b: seq<byte>, at: nat, c: uint16)
    requires DifferWithin(a, b, at)
    ensures CrcFrom(c, a) != CrcFrom(c, b)
  {
    hide Xor;
    if CrcFrom(c, a) == CrcFrom(c, b) {
      assert at < |a|;
      var end := Min(at + 2, |a|);
      assert a == a[..at] + a[at..end] + a[end..];
      assert b == a[..at] + b[at..end] + a[end..];
      SameEnds(a[..at], a[at..end], b[at..end], a[end..], c);
    }
  }

  lemma {:induction false} ShiftsZero(n: nat)
    ensures Shifts(0, n) == 0
  {
    if n > 0 {
      ShiftsZero(n - 1);
    }
  }

  // ------------------------------------------------------------------- bursts

  /**
   * The messages differ only in 16 consecutive bits, counted in the order in
   * which the register takes them: the upper 8 - k bits of byte at (the difference
   * there is high shifted up by k), byte at + 1, and the lower k bits of byte at + 2.
   */
  ghost predicate BurstWithin(a: seq<byte>, b: seq<byte>, at: nat, k: nat, high: nat) {
    && |a| == |b| && a != b && at + 2 < |a| && k <= 8
    && (forall i :: 0 <= i < |a| && !(at <= i <= at + 2) ==> a[i] == b[i])
    && Xor(a[at], b[at]) == Doubled(high, k)
    && Xor(a[at + 2], b[at + 2]) < Doubled(1, k)
  }

  lemma {:induction false} DoubledAdd(x: nat, y: nat, n: nat)
    ensures Doubled(x + y, n) == Doubled(x, n) + Doubled(y, n)
  {
    if n > 0 {
      DoubledAdd(x, y, n - 1);
    }
  }

  lemma {:induction false} DoubledSum(x: nat, m: nat, n: nat)
    ensures Doubled(Doubled(x, m), n) == Doubled(x, m + n)
  {
    if n > 0 {
      DoubledSum(x, m, n - 1);
    }
  }

  lemma {:induction false} DoubledGrows(x: nat, y: nat, n: nat)
    ensures x < y <==> Doubled(x, n) < Doubled(y, n)
  {
    if n > 0 {
      DoubledGrows(x, y, n - 1);
    }
  }

  /** The word of the first two bytes of a burst has its lowest k bits clear; what is above them is small. */
  lemma BurstWord(high: nat, y: byte, k: nat) returns (w: nat)
    requires k <= 8 && Doubled(high, k) < 0x100
    ensures w == high + Doubled(y, 8 - k)
    ensures Word(Doubled(high, k), y) == Doubled(w, k) && w < Doubled(1, 16 - k)
  {
    w := high + Doubled(y, 8 - k);
    PowersOfTwo();
    DoubledAdd(high, Doubled(y, 8 - k), k);
    DoubledSum(y, 8 - k, k);
    assert Doubled(y, 8) == 0x100 * y;
    DoubledSum(1, 16 - k, k);
    DoubledGrows(w, Doubled(1, 16 - k), k);
  }

  /** The register after a burst alone, from zero. */
  lemma BurstRegister(high: nat, y: byte, z: byte, k: nat) returns (v: uint16)
    requires k <= 8 && Doubled(high, k) < 0x100 && z < Doubled(1, k)
    ensures CrcFrom(0, [Doubled(high, k), y, z]) == Shifts(v, 24 - k)
    ensures v == high + Doubled(y, 8 - k) + Doubled(z, 16 - k)
  {
    hide Xor, Shift;
    var x: byte := Doubled(high, k);
    var w := BurstWord(high, y, k);
    PowersOfTwo();
    // the two bytes: k turns clear the empty low bits, the rest is 16 - k turns on w
    CrcFromTwo(0, x, y);
    XorZero(Word(x, y));
    HighBitsComeDown(w, k);
    ShiftsAdd(Word(x, y), k, 16 - k);
    // the third byte: its bits come in above w
    DoubledSum(1, k, 16 - k);
    DoubledGrows(z, Doubled(1, k), 16 - k);
    HighBitsComeDown(z, 16 - k);
    ShiftsLinear(w, Doubled(z, 16 - k), 16 - k);
    XorDisjoint(w, z, 16 - k);
    v := w + Doubled(z, 16 - k);
    var three: seq<byte> := [x, y, z];
    assert three[..2] == [x, y];
    assert CrcFrom(0, three) == Absorb(CrcFrom(0, [x, y]), z);
    ShiftsAdd(v, 16 - k, 8);
  }

  lemma {:induction false} DoubledZero(y: nat, n: nat)
    requires Doubled(y, n) == 0
    ensures y == 0
  {
    if n > 0 {
      DoubledZero(y, n - 1);
    }
  }

  /** Only the empty burst leaves the register at zero. */
  lemma ZeroRegisterNoBurst(high: nat, y: byte, z: byte, k: nat)
    requires k <= 8 && Doubled(high, k) < 0x100 && z < Doubled(1, k)
    requires CrcFrom(0, [Doubled(high, k), y, z]) == 0
    ensures Doubled(high, k) == 0 && y == 0 && z == 0
  {
    hide CrcFrom;
    var v := BurstRegister(high, y, z, k);
    ShiftsZero(24 - k);
    ShiftsInjective(v, 0, 24 - k);
    DoubledZero(y, 8 - k);
    DoubledZero(z, 16 - k);
    ZeroDoubled(k);
  }

  /** Three bytes that differ in a 16-bit burst leave different registers. */
  lemma BurstBlockDetected(c: uint16, p: seq<byte>, q: seq<byte>, k: nat, high: nat)
    requires |p| == |q| == 3 && p != q && k <= 8
    requires Xor(p[0], q[0]) == Doubled(high, k) && Xor(p[2], q[2]) < Doubled(1, k)
    ensures CrcFrom(c, p) != CrcFrom(c, q)
  {
    hide Xor, CrcFrom, Doubled, XorSeq;
    if CrcFrom(c, p) == CrcFrom(c, q) {
      Xor8(p[0], q[0]);
      Xor8(p[1], q[1]);
      Xor8(p[2], q[2]);
      XorSeqThree(p, q);
      CrcFromLinear(c, c, p, q);
      XorSelf(c);
      XorSelf(CrcFrom(c, p));
      ZeroRegisterNoBurst(high, Xor(p[1], q[1]), Xor(p[2], q[2]), k);
      XorZeroMeansEqual(p[0], q[0]);
      XorZeroMeansEqual(p[1], q[1]);
      XorZeroMeansEqual(p[2], q[2]);
    }
  }

  lemma {:induction false} ZeroDoubled(n: nat)
    ensures Doubled(0, n) == 0
  {
    if n > 0 {
      ZeroDoubled(n - 1);
    }
  }

  lemma XorSeqThree(p: seq<byte>, q: seq<byte>)
    requires |p| == |q| == 3
    ensures XorSeq(p, q) == [Xor(p[0], q[0]), Xor(p[1], q[1]), Xor(p[2], q[2])]
  {
    hide Xor;
    assert p[..2][..1] == p[..1] && q[..2][..1] == q[..1];
    assert XorSeq(p[..1], q[..1]) == [] + [Xor(p[0], q[0])];
    assert XorSeq(p[..2], q[..2]) == XorSeq(p[..1], q[..1]) + [Xor(p[1], q[1])];
  }

  /** Any burst of up to 16 bits, at any bit position of a message of any length, changes the CRC. */
  lemma BurstDetected(a: seq<byte>, b: seq<byte>, at: nat, k: nat, high: nat, c: uint16)
    requires BurstWithin(a, b, at, k, high)
    ensures CrcFrom(c, a) != CrcFrom(c, b)
  {
    hide Xor, Shift, Absorb, CrcFrom;
    var head, p, q, tail := a[..at], a[at..at + 3], b[at..at + 3], a[at + 3..];
    assert a == head + p + tail;
    assert b == head + q + tail;
    CrcFromConcat(c, head, p);
    CrcFromConcat(c, head, q);
    CrcFromConcat(c, head + p, tail);
    CrcFromConcat(c, head + q, tail);
    BurstBlockDetected(CrcFrom(c, head), p, q, k, high);
    if CrcFrom(c, a) == CrcFrom(c, b) {
      CrcFromInjective(CrcFrom(c, head + p), CrcFrom(c, head + q), tail);
    }
  }

  /** A block followed by its own CRC, low byte first, has CRC zero; followed by any other two bytes it has not. */
  lemma ZeroResidue(m: seq<byte>, lo: byte, hi: byte)
    ensures Crc(m + [lo, hi]) == 0 <==> Word(lo, hi) == Crc(m)
  {
    hide Xor;
    var c, w := Crc(m), Word(lo, hi);
    CrcFromConcat(0, m, [lo, hi]);
    CrcFromTwo(c, lo, hi);
    ShiftsZero(16);
    XorSelf(c);
    if Shifts(Xor(c, w), 16) == 0 {
      ShiftsInjective(Xor(c, w), 0, 16);
      XorCancel(c, c, w);
    }
  }
}
