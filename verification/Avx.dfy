/** The few AVX2 operations that mmdist uses, lane by lane. */
module Avx {
  import opened Basics

  const W16 := 0x1_0000
  const W32 := 0x1_0000_0000

  type u16 = x: int | 0 <= x < W16
  type Lanes = v: seq<u16> | |v| == 16 witness seq(16, _ => 0)
  type Sums = v: seq<nat> | |v| == 8 witness seq(8, _ => 0)
  type Mask = v: seq<bool> | |v| == 16 witness seq(16, _ => false)

  /** set1_epi16 */
  function Set1(x: u16): (r: Lanes)
    ensures forall l :: 0 <= l < 16 ==> r[l] == x
  {
    seq(16, _ => x)
  }

  /** loadu_si128 and cvtepu8_epi16 */
  function Widen(bytes: seq<byte>): (r: Lanes)
    requires |bytes| == 16
    ensures forall l :: 0 <= l < 16 ==> r[l] == bytes[l]
  {
    seq(16, l requires 0 <= l < 16 => bytes[l] as int)
  }

  /** sub_epi16 */
  function Sub(x: Lanes, y: Lanes): (r: Lanes)
    ensures forall l :: 0 <= l < 16 ==> r[l] == (x[l] as int - y[l] as int) % W16
  {
    seq(16, l requires 0 <= l < 16 => (x[l] as int - y[l] as int) % W16)
  }

  /** mullo_epi16 */
  function MulLo(x: Lanes, y: Lanes): (r: Lanes)
    ensures forall l :: 0 <= l < 16 ==> r[l] == (x[l] as int * y[l] as int) % W16
  {
    seq(16, l requires 0 <= l < 16 => (x[l] as int * y[l] as int) % W16)
  }

  /** adds_epu16: saturating */
  function AddSat(x: Lanes, y: Lanes): (r: Lanes)
    ensures forall l :: 0 <= l < 16 ==> r[l] == if x[l] + y[l] < W16 then x[l] + y[l] else W16 - 1
  {
    seq(16, l requires 0 <= l < 16 => var s := x[l] as int + y[l] as int; if s < W16 then s else W16 - 1)
  }

  /** subs_epu16 followed by a comparison with zero and movemask: the lanes with x <= y. */
  function NotAbove(x: Lanes, y: Lanes): (m: Mask)
    ensures forall l :: 0 <= l < 16 ==> (m[l] <==> x[l] <= y[l])
  {
    seq(16, l requires 0 <= l < 16 => var d := x[l] as int - y[l] as int; (if d < 0 then 0 else d) == 0)
  }

  /** The signed reading of a 16-bit lane. */
  function Signed16(x: u16): int {
    if x < 0x8000 then x else x - W16
  }

  /** madd_epi16 of a vector with itself: sums of adjacent squares. */
  function MaddSquares(d: Lanes): (r: Sums)
    ensures forall p :: 0 <= p < 8 ==>
              r[p] == (Signed16(d[2 * p]) * Signed16(d[2 * p]) + Signed16(d[2 * p + 1]) * Signed16(d[2 * p + 1])) % W32
  {
    seq(8, p requires 0 <= p < 8 =>
      (Signed16(d[2 * p]) * Signed16(d[2 * p]) + Signed16(d[2 * p + 1]) * Signed16(d[2 * p + 1])) % W32)
  }

  /** add_epi32 */
  function Add32(x: Sums, y: Sums): (r: Sums)
    ensures forall p :: 0 <= p < 8 ==> r[p] == (x[p] + y[p]) % W32
  {
    seq(8, p requires 0 <= p < 8 => (x[p] + y[p]) % W32)
  }

  /** hadd_epi32 with a zero second operand, in each 128-bit half. */
  function HAddZero(x: Sums): Sums {
    [(x[0] + x[1]) % W32, (x[2] + x[3]) % W32, 0, 0, (x[4] + x[5]) % W32, (x[6] + x[7]) % W32, 0, 0]
  }

  /** ffs of the mask, counted in lanes from 0; 16 when it is empty. */
  function FirstLane(m: Mask, from: nat): (l: nat)
    requires from <= 16
    ensures from <= l <= 16 && (l < 16 ==> m[l]) && forall j :: from <= j < l ==> !m[j]
    decreases 16 - from
  {
    if from == 16 then 16 else if m[from] then from else FirstLane(m, from + 1)
  }
}
