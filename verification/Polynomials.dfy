/**
 * Polynomials over the two-element field as numbers, bit i the coefficient of
 * x^i: product, remainder, and numbers with their bits in mirrored order. Both
 * checksums of the agent are remainders in this sense.
 */
module Polynomials {
  import opened Bits

  /** The product without carries. */
  function Times(a: nat, b: nat): nat {
    if a == 0 then 0 else Xor(if a % 2 == 1 then b else 0, 2 * Times(a / 2, b))
  }

  ghost predicate DividesTo(n: nat, p: nat, k: nat, q: nat, r: nat) {
    n == Xor(Times(q, p), r) && r < Doubled(1, k)
  }

  /** Dividing n by p, of degree k, leaves r. */
  ghost predicate IsRemainder(r: nat, n: nat, p: nat, k: nat) {
    exists q: nat :: DividesTo(n, p, k, q, r)
  }

  ghost predicate HasDegree(p: nat, k: nat) {
    Doubled(1, k) <= p < Doubled(1, k + 1)
  }

  lemma TimesDoubled(q: nat, p: nat)
    ensures Times(2 * q, p) == 2 * Times(q, p)
    ensures Times(2 * q + 1, p) == Xor(p, 2 * Times(q, p))
  {
    hide Xor;
    XorZero(2 * Times(q, p));
  }

  lemma XorTwice(a: nat, b: nat)
    ensures Xor(2 * a, 2 * b) == 2 * Xor(a, b)
  {
    hide Xor;
    XorUnfolds(2 * a, 2 * b);
  }

  /** One step of long division: the remainder of x n from that of n. */
  function Next(r: nat, p: nat, k: nat): nat {
    if 2 * r < Doubled(1, k) then 2 * r else Xor(2 * r, p)
  }

  lemma NextIsRemainder(r: nat, n: nat, p: nat, k: nat)
    requires HasDegree(p, k) && IsRemainder(r, n, p, k)
    ensures IsRemainder(Next(r, p, k), 2 * n, p, k)
  {
    hide Xor, Times;
    var q: nat :| DividesTo(n, p, k, q, r);
    var t := Times(q, p);
    TimesDoubled(q, p);
    XorTwice(t, r);
    if 2 * r < Doubled(1, k) {
      assert DividesTo(2 * n, p, k, 2 * q, 2 * r);
    } else {
      XorTopsCancel(2 * r, p, k);
      XorComm(2 * r, p);
      XorRegroup(p, 2 * t, p, 2 * r);
      XorSelf(p);
      XorZero(Xor(2 * t, 2 * r));
      assert DividesTo(2 * n, p, k, 2 * q + 1, Xor(2 * r, p));
    }
  }

  lemma AddedIsRemainder(r: nat, n: nat, y: nat, p: nat, k: nat)
    requires IsRemainder(r, n, p, k) && y < Doubled(1, k)
    ensures IsRemainder(Xor(r, y), Xor(n, y), p, k)
  {
    hide Xor, Times;
    var q: nat :| DividesTo(n, p, k, q, r);
    XorAssoc(Times(q, p), r, y);
    XorBound(r, y, k);
    assert DividesTo(Xor(n, y), p, k, q, Xor(r, y));
  }

  // ------------------------------------------------- there is only one remainder

  lemma {:induction false} TimesDistributes(a: nat, b: nat, p: nat)
    ensures Xor(Times(a, p), Times(b, p)) == Times(Xor(a, b), p)
    decreases a + b
  {
    hide Xor;
    TimesUnfolds(a, p);
    TimesUnfolds(b, p);
    TimesUnfolds(Xor(a, b), p);
    if a + b > 0 {
      TimesDistributes(a / 2, b / 2, p);
      XorLow(a, b);
      var x, y := if a % 2 == 1 then p else 0, if b % 2 == 1 then p else 0;
      XorRegroup(x, 2 * Times(a / 2, p), y, 2 * Times(b / 2, p));
      XorTwice(Times(a / 2, p), Times(b / 2, p));
      XorSelf(p);
      XorZero(p);
      XorZero(0);
    } else {
      XorZero(0);
    }
  }

  lemma TimesUnfolds(a: nat, p: nat)
    ensures Times(a, p) == Xor(if a % 2 == 1 then p else 0, 2 * Times(a / 2, p))
  {
    hide Xor;
    XorZero(0);
  }

  lemma {:induction false} TimesDegree(q: nat, p: nat, d: nat, k: nat)
    requires HasDegree(q, d) && HasDegree(p, k)
    ensures HasDegree(Times(q, p), k + d)
  {
    hide Xor, Times;
    TimesUnfolds(q, p);
    if d == 0 {
      TimesZero(p);
      XorZero(p);
    } else {
      TimesDegree(q / 2, p, d - 1, k);
      var x, y := if q % 2 == 1 then p else 0, 2 * Times(q / 2, p);
      DoubledOrder(k + 1, k + d);
      XorTop(x, y, k + d);
      XorBound(x, y, k + d + 1);
    }
  }

  lemma TimesZero(p: nat)
    ensures Times(0, p) == 0
  {
  }

  lemma {:induction false} DoubledOrder(m: nat, n: nat)
    requires m <= n
    ensures Doubled(1, m) <= Doubled(1, n)
  {
    if m < n {
      DoubledOrder(m, n - 1);
    }
  }

  lemma {:induction false} DegreeOf(q: nat) returns (d: nat)
    requires q > 0
    ensures HasDegree(q, d)
  {
    if q == 1 {
      d := 0;
    } else {
      var e := DegreeOf(q / 2);
      d := e + 1;
    }
  }

  /** Division leaves one remainder. */
  lemma RemainderIsUnique(r: nat, s: nat, n: nat, p: nat, k: nat)
    requires HasDegree(p, k) && IsRemainder(r, n, p, k) && IsRemainder(s, n, p, k)
    ensures r == s
  {
    hide Xor, Times;
    var a: nat :| DividesTo(n, p, k, a, r);
    var b: nat :| DividesTo(n, p, k, b, s);
    XorRegroup(Times(a, p), r, Times(b, p), s);
    XorSelf(n);
    TimesDistributes(a, b, p);
    XorZeroMeansEqual(Times(Xor(a, b), p), Xor(r, s));
    XorBound(r, s, k);
    if Xor(a, b) > 0 {
      var d := DegreeOf(Xor(a, b));
      TimesDegree(Xor(a, b), p, d, k);
      DoubledOrder(k, k + d);
    } else {
      TimesZero(p);
      XorZeroMeansEqual(r, s);
    }
  }

  // ------------------------------------------------------------ mirrored bits

  /** The lowest n bits of c in the opposite order. */
  function Mirrored(c: nat, n: nat): nat {
    if n == 0 then 0 else Doubled(c % 2, n - 1) + Mirrored(c / 2, n - 1)
  }

  lemma {:induction false} DoubledBit(b: nat, n: nat)
    requires b <= 1
    ensures Doubled(b, n) == if b == 1 then Doubled(1, n) else 0
  {
    if n > 0 {
      DoubledBit(b, n - 1);
    }
  }

  lemma {:induction false} MirroredBound(c: nat, n: nat)
    ensures Mirrored(c, n) < Doubled(1, n)
  {
    if n > 0 {
      MirroredBound(c / 2, n - 1);
      DoubledBit(c % 2, n - 1);
    }
  }

  /** A number with no more than n bits, mirrored in more than n. */
  lemma {:induction false} MirroredWider(c: nat, n: nat)
    requires c < Doubled(1, n)
    ensures Mirrored(c, n + 1) == 2 * Mirrored(c, n)
  {
    if n > 0 {
      MirroredWider(c / 2, n - 1);
      assert Mirrored(c, n + 1) == Doubled(c % 2, n) + Mirrored(c / 2, n);
    }
  }

  lemma {:induction false} MirroredMuchWider(c: nat, n: nat, m: nat)
    requires c < Doubled(1, n)
    ensures Mirrored(c, n + m) == Doubled(Mirrored(c, n), m)
  {
    if m > 0 {
      MirroredMuchWider(c, n, m - 1);
      DoubledOrder(n, n + m - 1);
      MirroredWider(c, n + m - 1);
    }
  }

  lemma MirroredUnfolds(c: nat, n: nat)
    ensures Mirrored(c, n) == if n == 0 then 0 else Doubled(c % 2, n - 1) + Mirrored(c / 2, n - 1)
  {
  }

  lemma {:induction false} MirroredXor(a: nat, b: nat, n: nat)
    ensures Mirrored(Xor(a, b), n) == Xor(Mirrored(a, n), Mirrored(b, n))
  {
    hide Xor, Mirrored, Doubled;
    MirroredUnfolds(a, n);
    MirroredUnfolds(b, n);
    MirroredUnfolds(Xor(a, b), n);
    if n == 0 {
      XorZero(0);
    } else {
      XorLow(a, b);
      MirroredXor(a / 2, b / 2, n - 1);
      var x, y := Mirrored(a / 2, n - 1), Mirrored(b / 2, n - 1);
      MirroredBound(a / 2, n - 1);
      MirroredBound(b / 2, n - 1);
      XorOfBits(a % 2, b % 2);
      XorOfSums(x, y, a % 2, b % 2, n - 1);
    }
  }

  lemma XorOfSums(x: nat, y: nat, a: nat, b: nat, n: nat)
    requires x < Doubled(1, n) && y < Doubled(1, n)
    ensures Xor(Doubled(a, n) + x, Doubled(b, n) + y) == Doubled(Xor(a, b), n) + Xor(x, y)
  {
    hide Xor, Doubled;
    XorBound(x, y, n);
    XorDisjoint(x, a, n);
    XorDisjoint(y, b, n);
    XorDisjoint(Xor(x, y), Xor(a, b), n);
    XorDoubled(a, b, n);
    XorRegroup(x, Doubled(a, n), y, Doubled(b, n));
  }

  lemma XorOfBits(a: nat, b: nat)
    requires a <= 1 && b <= 1
    ensures Xor(a, b) == LowBit(a, b)
  {
  }
}
