/** Single bits, or and exclusive or of naturals. */
module Bits {
  import opened Arith

  predicate BitOf(w: nat, j: nat) {
    if j == 0 then w % 2 == 1 else BitOf(w / 2, j - 1)
  }

  lemma {:induction false} BitIs(w: nat, j: nat)
    ensures BitOf(w, j) <==> w / Pow2(j) % 2 == 1
    decreases j
  {
    if j > 0 {
      BitIs(w / 2, j - 1);
      HalfThenShift(w, j);
    }
  }

  lemma HalfThenShift(w: nat, j: nat)
    requires j > 0
    ensures w / Pow2(j) == w / 2 / Pow2(j - 1)
  {
    var p := Pow2(j - 1);
    var q, r := w / 2 / p, w / 2 % p;
    assert w / 2 == q * p + r;
    assert q * (2 * p) == 2 * (q * p);
    ModUnique(w, 2 * p, q, 2 * r + w % 2);
  }

  function BitOr(x: nat, y: nat): nat {
    if x == 0 then y else if y == 0 then x
    else (if x % 2 == 1 || y % 2 == 1 then 1 else 0) + 2 * BitOr(x / 2, y / 2)
  }

  /** v & (1 << j) tests bit j. */
  lemma {:induction false} AndTestsBit(v: nat, j: nat)
    ensures BitAnd(v, Pow2(j)) == 0 <==> !BitOf(v, j)
    decreases j
  {
    if j > 0 {
      AndTestsBit(v / 2, j - 1);
      assert Pow2(j) / 2 == Pow2(j - 1) && Pow2(j) % 2 == 0;
      if v == 0 { ZeroHasNoBits(j); }
    }
  }

  lemma {:induction false} ZeroHasNoBits(j: nat)
    ensures !BitOf(0, j)
  {
    if j > 0 { ZeroHasNoBits(j - 1); }
  }

  lemma {:induction false} OnlyOneBit(j: nat, i: nat)
    ensures BitOf(Pow2(j), i) <==> i == j
    decreases j
  {
    if j == 0 {
      if i > 0 { ZeroHasNoBits(i - 1); }
    } else {
      assert Pow2(j) / 2 == Pow2(j - 1) && Pow2(j) % 2 == 0;
      if i > 0 { OnlyOneBit(j - 1, i - 1); }
    }
  }

  /** v | (1 << j) sets bit j and keeps every other bit. */
  lemma {:induction false} OrSetsBit(v: nat, j: nat, i: nat)
    ensures BitOf(BitOr(v, Pow2(j)), i) <==> BitOf(v, i) || i == j
    decreases j
  {
    assert j > 0 ==> Pow2(j) / 2 == Pow2(j - 1) && Pow2(j) % 2 == 0;
    if v == 0 {
      ZeroHasNoBits(i);
      OnlyOneBit(j, i);
    } else if j == 0 {
      if i > 0 { assert BitOr(v, 1) / 2 == BitOr(v / 2, 0) == v / 2; }
    } else if i > 0 {
      OrSetsBit(v / 2, j - 1, i - 1);
      assert BitOr(v, Pow2(j)) / 2 == BitOr(v / 2, Pow2(j - 1));
    }
  }

  // ----- or and exclusive or of words

  lemma OrDouble(a: nat, b: nat, bit: nat)
    requires bit <= 1
    ensures BitOr(2 * a + bit, 2 * b) == 2 * BitOr(a, b) + bit
  {
    assert (2 * a + bit) / 2 == a && 2 * b / 2 == b;
  }

  /** The k low bits of low put below a. */
  function ShiftIn(a: nat, k: nat, low: nat): nat {
    if k == 0 then a else 2 * ShiftIn(a, k - 1, low / 2) + low % 2
  }

  lemma {:induction false} ShiftInIs(a: nat, k: nat, low: nat)
    requires low < Pow2(k)
    ensures ShiftIn(a, k, low) == a * Pow2(k) + low
    decreases k
  {
    if k > 0 {
      ShiftInIs(a, k - 1, low / 2);
      TimesDouble(a, Pow2(k - 1));
    }
  }

  lemma TimesDouble(a: nat, p: nat)
    ensures a * (2 * p) == 2 * (a * p)
  {
  }

  lemma {:induction false} OrShiftIn(a: nat, b: nat, k: nat, low: nat)
    ensures BitOr(ShiftIn(a, k, low), ShiftIn(b, k, 0)) == ShiftIn(BitOr(a, b), k, low)
    decreases k
  {
    if k > 0 {
      OrShiftIn(a, b, k - 1, low / 2);
      OrDouble(ShiftIn(a, k - 1, low / 2), ShiftIn(b, k - 1, 0), low % 2);
    }
  }

  /** Or with a multiple of 2^k keeps the k low bits. */
  lemma OrAbove(a: nat, b: nat, k: nat, low: nat)
    requires low < Pow2(k)
    ensures BitOr(a * Pow2(k) + low, b * Pow2(k)) == BitOr(a, b) * Pow2(k) + low
  {
    OrShiftIn(a, b, k, low);
    ShiftInIs(a, k, low);
    ShiftInIs(b, k, 0);
    ShiftInIs(BitOr(a, b), k, low);
  }

  lemma {:induction false} OrCommutes(a: nat, b: nat)
    ensures BitOr(a, b) == BitOr(b, a)
  {
    if a > 0 && b > 0 { OrCommutes(a / 2, b / 2); }
  }

  /** Or of numbers without common bits is their sum. */
  lemma OrIsSum(a: nat, k: nat, low: nat)
    requires low < Pow2(k)
    ensures BitOr(a * Pow2(k), low) == a * Pow2(k) + low
  {
    OrAbove(0, a, k, low);
    OrCommutes(low, a * Pow2(k));
  }

  function BitXor(x: nat, y: nat): nat {
    if x == 0 then y else if y == 0 then x
    else (if x % 2 == y % 2 then 0 else 1) + 2 * BitXor(x / 2, y / 2)
  }

  lemma {:induction false} XorBelow(x: nat, y: nat, k: nat)
    requires x < Pow2(k) && y < Pow2(k)
    ensures BitXor(x, y) < Pow2(k)
    decreases k
  {
    if k > 0 && x > 0 && y > 0 {
      XorBelow(x / 2, y / 2, k - 1);
    }
  }

  /** Exclusive or undoes itself. */
  lemma {:induction false} XorUndone(x: nat, y: nat)
    ensures BitXor(BitXor(x, y), y) == x
    decreases y
  {
    if x == 0 && y > 0 {
      XorSelf(y);
    } else if x > 0 && y > 0 {
      XorUndone(x / 2, y / 2);
      var z := BitXor(x, y);
      assert z / 2 == BitXor(x / 2, y / 2);
      XorHalves(z, y);
      XorZero(x / 2, y / 2);
    }
  }

  lemma {:induction false} XorSelf(y: nat)
    ensures BitXor(y, y) == 0
  {
    if y > 0 {
      XorSelf(y / 2);
    }
  }

  /** One step of the definition, without its shortcuts for 0. */
  lemma XorHalves(x: nat, y: nat)
    ensures BitXor(x, y) == (if x % 2 == y % 2 then 0 else 1) + 2 * BitXor(x / 2, y / 2)
  {
  }

  lemma {:induction false} XorBit(x: nat, y: nat, j: nat)
    ensures BitOf(BitXor(x, y), j) <==> BitOf(x, j) != BitOf(y, j)
    decreases j
  {
    XorHalves(x, y);
    if j > 0 { XorBit(x / 2, y / 2, j - 1); }
  }

  lemma XorZero(x: nat, y: nat)
    ensures BitXor(0, y) == y && BitXor(x, 0) == x
  {
  }
}
