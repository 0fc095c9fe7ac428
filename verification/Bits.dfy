/**
 * Exclusive or on unsigned integers, bit by bit from the lowest. Both checksums
 * of the agent are built from it, from halving and from doubling.
 */
module Bits {

  function Xor(a: nat, b: nat): nat {
    if a == 0 then b
    else if b == 0 then a
    else LowBit(a, b) + 2 * Xor(a / 2, b / 2)
  }

  function LowBit(a: nat, b: nat): nat {
    if a % 2 != b % 2 then 1 else 0
  }

  /** n doublings of y. */
  function Doubled(y: nat, n: nat): nat {
    if n == 0 then y else 2 * Doubled(y, n - 1)
  }

  lemma {:induction false} XorComm(a: nat, b: nat)
    ensures Xor(a, b) == Xor(b, a)
    decreases a + b
  {
    if a + b > 0 {
      XorComm(a / 2, b / 2);
    }
  }

  lemma {:induction false} XorAssoc(a: nat, b: nat, c: nat)
    ensures Xor(Xor(a, b), c) == Xor(a, Xor(b, c))
    decreases a + b + c
  {
    hide Xor;
    if a + b + c > 0 {
      XorAssoc(a / 2, b / 2, c / 2);
      var ab, bc := Xor(a, b), Xor(b, c);
      XorLow(a, b);
      XorLow(b, c);
      XorLow(ab, c);
      XorLow(a, bc);
      assert Xor(ab, c) == 2 * (Xor(ab, c) / 2) + Xor(ab, c) % 2;
      assert Xor(a, bc) == 2 * (Xor(a, bc) / 2) + Xor(a, bc) % 2;
    } else {
      XorZero(0);
    }
  }

  lemma XorLow(a: nat, b: nat)
    ensures Xor(a, b) % 2 == LowBit(a, b)
    ensures Xor(a, b) / 2 == Xor(a / 2, b / 2)
  {
    hide Xor;
    XorUnfolds(a, b);
    LowAndHigh(LowBit(a, b), Xor(a / 2, b / 2));
  }

  lemma XorUnfolds(a: nat, b: nat)
    ensures Xor(a, b) == LowBit(a, b) + 2 * Xor(a / 2, b / 2)
  {
    if a == 0 {
      assert Xor(a / 2, b / 2) == b / 2;
    } else if b == 0 {
      assert Xor(a / 2, 0) == a / 2;
    }
  }

  lemma LowAndHigh(bit: nat, high: nat)
    requires bit < 2
    ensures (bit + 2 * high) % 2 == bit && (bit + 2 * high) / 2 == high
  {
  }

  lemma PowersOfTwo()
    ensures Doubled(1, 8) == 0x100
    ensures Doubled(1, 15) == 0x8000
    ensures Doubled(1, 16) == 0x1_0000
    ensures forall y: nat {:trigger Doubled(y, 8)} :: Doubled(y, 8) == 0x100 * y
  {
    assert Doubled(1, 2) == 4;
    assert Doubled(1, 4) == 0x10;
    assert Doubled(1, 6) == 0x40;
    assert Doubled(1, 8) == 0x100;
    assert Doubled(1, 10) == 0x400;
    assert Doubled(1, 12) == 0x1000;
    assert Doubled(1, 14) == 0x4000;
    forall y: nat ensures Doubled(y, 8) == 0x100 * y {
      assert Doubled(y, 1) == 2 * y && Doubled(y, 3) == 8 * y;
      assert Doubled(y, 5) == 0x20 * y;
      assert Doubled(y, 7) == 0x80 * y;
    }
  }

  lemma {:induction false} XorZero(a: nat)
    ensures Xor(a, 0) == a
    ensures Xor(0, a) == a
  {
    if a > 0 {
      XorZero(a / 2);
    }
  }

  lemma {:induction false} XorSelf(a: nat)
    ensures Xor(a, a) == 0
  {
    if a > 0 {
      XorSelf(a / 2);
    }
  }

  lemma XorCancel(a: nat, b: nat, c: nat)
    requires Xor(a, b) == Xor(a, c)
    ensures b == c
  {
    hide Xor;
    XorAssoc(a, a, b);
    XorAssoc(a, a, c);
    XorSelf(a);
    XorZero(b);
    XorZero(c);
  }

  /** The four operands of two sums can be paired the other way. */
  lemma XorRegroup(a: nat, b: nat, c: nat, d: nat)
    ensures Xor(Xor(a, b), Xor(c, d)) == Xor(Xor(a, c), Xor(b, d))
  {
    hide Xor;
    XorAssoc(a, b, Xor(c, d));
    XorAssoc(b, c, d);
    XorComm(b, c);
    XorAssoc(c, b, d);
    XorAssoc(a, c, Xor(b, d));
  }

  lemma {:induction false} XorBound(a: nat, b: nat, n: nat)
    requires a < Doubled(1, n) && b < Doubled(1, n)
    ensures Xor(a, b) < Doubled(1, n)
  {
    if a + b > 0 {
      XorBound(a / 2, b / 2, n - 1);
    }
  }

  lemma Xor8(a: nat, b: nat)
    requires a < 0x100 && b < 0x100
    ensures Xor(a, b) < 0x100
  {
    hide Xor;
    PowersOfTwo();
    XorBound(a, b, 8);
  }

  lemma Xor16(a: nat, b: nat)
    requires a < 0x1_0000 && b < 0x1_0000
    ensures Xor(a, b) < 0x1_0000
  {
    hide Xor;
    PowersOfTwo();
    XorBound(a, b, 16);
  }

  /** Bit n of a sum is set when exactly one operand has it. */
  lemma {:induction false} XorTop(a: nat, b: nat, n: nat)
    requires a < Doubled(1, n) <= b < Doubled(1, n + 1)
    ensures Doubled(1, n) <= Xor(a, b)
  {
    if n == 0 {
      assert Xor(0, 1) == 1;
    } else {
      XorTop(a / 2, b / 2, n - 1);
    }
  }

  /** Operands that share no bit add up. */
  lemma {:induction false} XorDisjoint(low: nat, y: nat, n: nat)
    requires low < Doubled(1, n)
    ensures Xor(low, Doubled(y, n)) == low + Doubled(y, n)
  {
    if n == 0 {
      XorZero(y);
    } else {
      hide Xor;
      XorUnfolds(low, Doubled(y, n));
      XorDisjoint(low / 2, y, n - 1);
      assert Doubled(y, n) / 2 == Doubled(y, n - 1) && Doubled(y, n) % 2 == 0;
      assert LowBit(low, Doubled(y, n)) == low % 2;
    }
  }

  lemma XorZeroMeansEqual(a: nat, b: nat)
    requires Xor(a, b) == 0
    ensures a == b
  {
    hide Xor;
    XorSelf(a);
    XorCancel(a, b, a);
  }

  lemma {:induction false} XorDoubled(a: nat, b: nat, n: nat)
    ensures Xor(Doubled(a, n), Doubled(b, n)) == Doubled(Xor(a, b), n)
  {
    hide Xor;
    if n > 0 {
      var x, y := Doubled(a, n - 1), Doubled(b, n - 1);
      XorDoubled(a, b, n - 1);
      XorUnfolds(2 * x, 2 * y);
    }
  }

  /** The common top bit of two operands cancels. */
  lemma {:induction false} XorTopsCancel(a: nat, b: nat, n: nat)
    requires Doubled(1, n) <= a < Doubled(1, n + 1) && Doubled(1, n) <= b < Doubled(1, n + 1)
    ensures Xor(a, b) < Doubled(1, n)
  {
    hide Xor;
    XorUnfolds(a, b);
    if n == 0 {
      XorZero(0);
    } else {
      XorTopsCancel(a / 2, b / 2, n - 1);
    }
  }
}
