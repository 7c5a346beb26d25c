/** Remainders, powers of two and bit masks on the naturals. */
module Arith {
  import opened Basics

  lemma MulAtLeast(a: int, n: int)
    requires a >= 1 && n >= 0
    ensures a * n >= n
  {
    assert a * n == (a - 1) * n + n;
    assert (a - 1) * n >= 0;
  }

  lemma MulNonNegative(a: int, n: int)
    requires a >= 0 && n >= 0
    ensures a * n >= 0
  {
  }

  lemma ModUnique(x: int, n: int, q: int, r: int)
    requires n > 0 && x == q * n + r && 0 <= r < n
    ensures x % n == r && x / n == q
  {
    var q', r' := x / n, x % n;
    assert x == q' * n + r';
    var d := q' - q;
    assert d * n == q' * n - q * n;
    assert (-d) * n == -(d * n);
    if d >= 1 {
      MulAtLeast(d, n);
    } else if d <= -1 {
      MulAtLeast(-d, n);
    }
  }

  function Pow2(k: nat): (p: nat)
    ensures p > 0
  {
    if k == 0 then 1 else 2 * Pow2(k - 1)
  }

  /** The bitwise and of two naturals. */
  function BitAnd(x: nat, y: nat): nat {
    if x == 0 || y == 0 then 0 else x % 2 * (y % 2) + 2 * BitAnd(x / 2, y / 2)
  }

  lemma HalfMod(x: nat, p: nat)
    requires p > 0
    ensures x % (2 * p) == x % 2 + 2 * (x / 2 % p)
  {
    var h, q := x / 2, x / 2 / p;
    var r := 2 * (h % p) + x % 2;
    assert h == q * p + h % p;
    assert q * (2 * p) == 2 * (q * p);
    ModUnique(x, 2 * p, q, r);
  }

  /** Masking with a power of two minus one is the remainder. */
  lemma {:induction false} MaskIsMod(x: nat, k: nat)
    ensures BitAnd(x, Pow2(k) - 1) == x % Pow2(k)
    decreases k
  {
    if k > 0 {
      var p := Pow2(k - 1);
      MaskIsMod(x / 2, k - 1);
      MaskOfDouble(x, p);
    }
  }

  lemma MaskOfDouble(x: nat, p: nat)
    requires p > 0 && BitAnd(x / 2, p - 1) == x / 2 % p
    ensures BitAnd(x, 2 * p - 1) == x % (2 * p)
  {
    HalfMod(x, p);
    MaskStep(x, p);
  }

  lemma MaskStep(x: nat, p: nat)
    requires p > 0
    ensures BitAnd(x, 2 * p - 1) == x % 2 + 2 * BitAnd(x / 2, p - 1)
  {
    var m := 2 * p - 1;
    assert m / 2 == p - 1 && m % 2 == 1;
  }

  /** The remainder by n is read off the remainder by 2n. */
  lemma ModOfDouble(x: nat, n: nat)
    requires n > 0
    ensures x % (2 * n) % n == x % n
  {
    var q, r := x / (2 * n), x % (2 * n);
    assert x == q * (2 * n) + r && q * (2 * n) == 2 * q * n;
    var q', r' := r / n, r % n;
    assert r == q' * n + r';
    assert x == (2 * q + q') * n + r' by { assert (2 * q + q') * n == 2 * q * n + q' * n; }
    ModUnique(x, n, 2 * q + q', r');
  }

  /** Adding without passing a multiple of n. */
  lemma ModAdd(x: nat, e: nat, n: nat)
    requires n > 0 && x % n + e < n
    ensures (x + e) % n == x % n + e
  {
    var q := x / n;
    assert x == q * n + x % n;
    ModUnique(x + e, n, q, x % n + e);
  }

  /** 2^k bits make 2^(k-6) words of 64. */
  lemma Pow2Split(k: nat)
    requires k >= 6
    ensures Pow2(k) == 64 * Pow2(k - 6)
  {
    assert Pow2(k) == 2 * Pow2(k - 1) == 4 * Pow2(k - 2) == 8 * Pow2(k - 3);
    assert Pow2(k - 3) == 2 * Pow2(k - 4) == 4 * Pow2(k - 5) == 8 * Pow2(k - 6);
  }

  lemma QuotientBelow(x: nat, p: nat, c: nat)
    requires c > 0 && x < p * c
    ensures x / c < p && x == x / c * c + x % c
  {
    var over := x / c - p;
    assert over * c == x / c * c - p * c < 0;
    if over >= 0 {
      MulNonNegative(over, c);
    }
  }

  lemma Pow64()
    ensures Pow2(64) == TWO64 && Pow2(32) == 0x1_0000_0000 && Pow2(56) == 0x100_0000_0000_0000
  {
    assert Pow2(8) == 0x100;
    Pow2Step8(8);
    Pow2Step8(16);
    Pow2Step8(24);
    Pow2Step8(32);
    Pow2Step8(40);
    Pow2Step8(48);
    Pow2Step8(56);
  }

  lemma Pow2Step8(k: nat)
    ensures Pow2(k + 8) == 0x100 * Pow2(k)
  {
    assert Pow2(k + 2) == 4 * Pow2(k) && Pow2(k + 4) == 4 * Pow2(k + 2);
    assert Pow2(k + 6) == 4 * Pow2(k + 4) && Pow2(k + 8) == 4 * Pow2(k + 6);
  }

  lemma {:induction false} Pow2Grows(k: nat, b: nat)
    requires k <= b
    ensures Pow2(k) <= Pow2(b)
    decreases b
  {
    if k < b { Pow2Grows(k, b - 1); }
  }

  /** Clearing the k low bits of a number of at most b bits. */
  lemma {:induction false} HighMask(x: nat, k: nat, b: nat)
    requires k <= b && x < Pow2(b)
    ensures Pow2(k) <= Pow2(b) && BitAnd(x, Pow2(b) - Pow2(k)) == x - x % Pow2(k)
    decreases k
  {
    Pow2Grows(k, b);
    if k == 0 {
      MaskIsMod(x, b);
      ModUnique(x, Pow2(b), 0, x);
    } else {
      HighMask(x / 2, k - 1, b - 1);
      HalfMod(x, Pow2(k - 1));
      AndOfDouble(x, Pow2(b - 1) - Pow2(k - 1));
    }
  }

  lemma AndOfDouble(x: nat, m: nat)
    ensures BitAnd(x, 2 * m) == 2 * BitAnd(x / 2, m)
  {
  }
}
