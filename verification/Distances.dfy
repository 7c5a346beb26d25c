/**
 Squared Euclidean distance of 144-byte vectors and the nearest-neighbour scan: what every
 program of mmdist computes, and the plain one that defines it.
 */
module Distances {
  import opened Basics
  import opened Arith

  const DIM := 144
  const UINT32_MAX := 0xffff_ffff

  type Vec = v: seq<byte> | |v| == DIM witness seq(DIM, _ => 0)

  function Sq(x: int): int {
    x * x
  }

  function Diff(a: byte, b: byte): int {
    a as int - b as int
  }

  lemma SqBound(x: int)
    requires -255 <= x <= 255
    ensures 0 <= Sq(x) <= 65025
  {
    MulNonNegative(255 - x, 255 + x);
    assert (255 - x) * (255 + x) == 65025 - x * x;
    if x >= 0 {
      MulNonNegative(x, x);
    } else {
      MulNonNegative(-x, -x);
      assert (-x) * (-x) == x * x;
    }
  }

  /** The squared distance over the first n coordinates. */
  function DistTo(a: Vec, b: Vec, n: nat): nat
    requires n <= DIM
  {
    if n == 0 then 0
    else
      SqBound(Diff(a[n - 1], b[n - 1]));
      DistTo(a, b, n - 1) + Sq(Diff(a[n - 1], b[n - 1]))
  }

  function Dist(a: Vec, b: Vec): nat {
    DistTo(a, b, DIM)
  }

  lemma {:induction false} DistBound(a: Vec, b: Vec, n: nat)
    requires n <= DIM
    ensures DistTo(a, b, n) <= 65025 * n
  {
    if n > 0 {
      DistBound(a, b, n - 1);
      SqBound(Diff(a[n - 1], b[n - 1]));
    }
  }

  lemma {:induction false} DistGrows(a: Vec, b: Vec, m: nat, n: nat)
    requires m <= n <= DIM
    ensures DistTo(a, b, m) <= DistTo(a, b, n)
    decreases n
  {
    if m < n {
      DistGrows(a, b, m, n - 1);
      SqBound(Diff(a[n - 1], b[n - 1]));
    }
  }

  // ----- what a distance is

  /** A vector is at distance 0 from itself. */
  lemma {:induction false} DistToSelf(a: Vec, n: nat)
    requires n <= DIM
    ensures DistTo(a, a, n) == 0
  {
    if n > 0 { DistToSelf(a, n - 1); }
  }

  lemma {:induction false} DistToUpdate(a: Vec, b: Vec, i: nat, x: byte, n: nat)
    requires i < DIM && n <= DIM
    ensures var before, after := a[i] as int - b[i] as int, x as int - b[i] as int;
            DistTo(a[i := x], b, n) == DistTo(a, b, n) + if i < n then after * after - before * before else 0
    decreases n
  {
    if n > 0 { DistToUpdate(a, b, i, x, n - 1); }
  }

  /**
   The distance, apart from how it is summed up: 0 from a vector to itself, and each of the 144
   coordinates contributes the square of its difference.
   */
  lemma DistIs(a: Vec, b: Vec, i: nat, x: byte)
    requires i < 144
    ensures Dist(a, a) == 0
    ensures var before, after := a[i] as int - b[i] as int, x as int - b[i] as int;
            Dist(a[i := x], b) == Dist(a, b) - before * before + after * after
  {
    DistToSelf(a, DIM);
    DistToUpdate(a, b, i, x, DIM);
  }

  // ----- the nearest neighbour below a threshold

  /**
   Among the first n vectors, (dist, idx) is the lowest index that attains the smallest
   distance below the threshold; without any it is (threshold, -1).
   */
  ghost predicate Nearest(q: Vec, db: seq<Vec>, threshold: nat, n: nat, dist: int, idx: int)
    requires n <= |db|
  {
    && (forall i :: 0 <= i < n ==> Dist(q, db[i]) >= dist)
    && if idx == -1 then dist == threshold
       else 0 <= idx < n && Dist(q, db[idx]) == dist < threshold && forall i :: 0 <= i < idx ==> Dist(q, db[i]) > dist
  }

  /** There is only one such answer. */
  lemma NearestUnique(q: Vec, db: seq<Vec>, threshold: nat, n: nat, d1: int, i1: int, d2: int, i2: int)
    requires n <= |db| && Nearest(q, db, threshold, n, d1, i1) && Nearest(q, db, threshold, n, d2, i2)
    ensures d1 == d2 && i1 == i2
  {
    assert i1 != -1 ==> Dist(q, db[i1]) >= d2;
    assert i2 != -1 ==> Dist(q, db[i2]) >= d1;
  }

  /** Cutting the answer for a high threshold at a lower one gives the answer for the lower one. */
  lemma CutAtThreshold(q: Vec, db: seq<Vec>, high: nat, low: nat, dist: int, idx: int)
    requires low <= high && Nearest(q, db, high, |db|, dist, idx)
    ensures if dist < low then Nearest(q, db, low, |db|, dist, idx) else Nearest(q, db, low, |db|, low, -1)
  {
  }

  // ----- mmdist-naive

  /** A difference of bytes squared modulo a power of two that holds the square. */
  lemma SquareWraps(x: int, m: int)
    requires -255 <= x <= 255 && m >= 0x1_0000
    ensures x % m * (x % m) % m == Sq(x)
  {
    SqBound(x);
    if x >= 0 {
      ModUnique(x, m, 0, x);
      ModUnique(x * x, m, 0, x * x);
    } else {
      var t := x + m;
      ModUnique(x, m, -1, t);
      var q := 2 * x + m;
      assert t * t == q * m + x * x;
      ModUnique(t * t, m, q, x * x);
    }
  }

  /** full_distance: the loop in 32-bit unsigned arithmetic. */
  method FullDistance(a: Vec, b: Vec) returns (d: nat)
    ensures d == Dist(a, b)
  {
    d := 0;
    for i := 0 to DIM
      invariant d == DistTo(a, b, i)
    {
      var t := (a[i] as int - b[i] as int) % 0x1_0000_0000;
      SquareWraps(Diff(a[i], b[i]), 0x1_0000_0000);
      DistBound(a, b, i + 1);
      d := (d + t * t % 0x1_0000_0000) % 0x1_0000_0000;
    }
  }

  /** The scan of mmdist-naive. */
  method NaiveScan(q: Vec, db: seq<Vec>) returns (minDist: nat, minIdx: int)
    ensures Nearest(q, db, UINT32_MAX, |db|, minDist, minIdx)
  {
    minDist := UINT32_MAX;
    minIdx := -1;
    for i := 0 to |db|
      invariant Nearest(q, db, UINT32_MAX, i, minDist, minIdx)
    {
      var dist := FullDistance(q, db[i]);
      if dist < minDist {
        minDist := dist;
        minIdx := i;
      }
    }
  }
}
