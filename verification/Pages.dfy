/** Rounding sizes up to whole pages. */
module Pages {
  import opened Basics
  import opened Arith

  // ----- page_align

  /** (n + (page_size - 1)) & ~(page_size - 1) on 64-bit numbers, for pages of 2^k bytes. */
  function PageAlign(n: nat, k: nat): nat
    requires k < 64
  {
    Pow64();
    Pow2Grows(k, 64);
    BitAnd((n + Pow2(k) - 1) % TWO64, TWO64 - 1 - (Pow2(k) - 1))
  }

  lemma LeastMultiple(r: nat, n: nat, p: nat, m: nat)
    requires p > 0 && r % p == 0 && m % p == 0 && r < n + p && m >= n
    ensures m >= r
  {
    var q, c := r / p, m / p;
    assert r == q * p && m == c * p;
    assert c < q ==> (q - c) * p >= p by { if c < q { MulAtLeast(q - c, p); } }
    assert (q - c) * p == q * p - c * p;
  }

  lemma RoundedDown(x: nat, p: nat)
    requires p > 0
    ensures (x - x % p) % p == 0 && x - p < x - x % p <= x
  {
    ModUnique(x - x % p, p, x / p, 0);
  }

  lemma PageAlignRounds(n: nat, k: nat)
    requires k < 64
    ensures var x, p := (n + Pow2(k) - 1) % TWO64, Pow2(k); p <= TWO64 && PageAlign(n, k) == x - x % p
  {
    Pow64();
    HighMask((n + Pow2(k) - 1) % TWO64, k, 64);
  }

  /**
   Up to the last page below 2^64 this is the least multiple of the page size that is at least n;
   above, it wraps to 0.
   */
  lemma PageAlignIsLeast(n: uint64, k: nat)
    requires k < 64
    ensures var p, r := Pow2(k), PageAlign(n, k);
            && r % p == 0
            && (n + p <= TWO64 ==> n <= r < n + p && forall m: nat | m % p == 0 && m >= n :: m >= r)
            && (n + p > TWO64 ==> r == 0)
  {
    PageAlignRounds(n, k);
    Rounded(n, Pow2(k), PageAlign(n, k));
  }

  lemma Rounded(n: uint64, p: nat, r: nat)
    requires 0 < p <= TWO64 && (var x := (n + p - 1) % TWO64; r == x - x % p)
    ensures r % p == 0
    ensures n + p <= TWO64 ==> n <= r < n + p && forall m: nat | m % p == 0 && m >= n :: m >= r
    ensures n + p > TWO64 ==> r == 0
  {
    var x := (n + p - 1) % TWO64;
    RoundedDown(x, p);
    if n + p <= TWO64 {
      forall m: nat | m % p == 0 && m >= n ensures m >= r { LeastMultiple(r, n, p, m); }
    } else {
      ModUnique(n + p - 1, TWO64, 1, n + p - 1 - TWO64);
      ModUnique(x, p, 0, x);
    }
  }
}
