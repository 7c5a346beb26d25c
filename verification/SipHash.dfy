/**
 siphash24 of csiphash.c on 64-bit words, against SipHash-2-4 as defined in section 2 of the
 SipHash paper: two SipRounds per message word, four to finish.
 */
module SipHash {
  import opened Basics
  import opened Arith
  import opened Bits
  import opened LittleEndian
  import opened SipRounds
  import opened SipWords

  // ----- 64-bit words

  function Xor(x: uint64, y: uint64): uint64 {
    Pow64();
    XorBelow(x, y, 64);
    BitXor(x, y)
  }

  /** ROTATE(x, b) for a split of 64 bits into 2^b * c = 2^64. */
  function RotateAt(x: uint64, p: nat, c: nat): uint64
    requires p > 0 && c > 0 && p * c == TWO64
  {
    RotateBound(x, p, c);
    x * p % TWO64 + x / c
  }

  lemma RotateBound(x: uint64, p: nat, c: nat)
    requires p > 0 && c > 0 && p * c == TWO64
    ensures x * p % TWO64 == x % c * p
    ensures 0 <= x / c < p && x % c * p + x / c < TWO64
  {
    var hi, lo := x / c, x % c;
    assert x == hi * c + lo;
    assert x * p == hi * TWO64 + lo * p by { assert hi * c * p == hi * (p * c); }
    assert lo * p <= (c - 1) * p by { if lo < c - 1 { MulAtLeast(c - 1 - lo, p); } }
    assert (c - 1) * p == TWO64 - p;
    ModUnique(x * p, TWO64, hi, lo * p);
    QuotientBelow(x, p, c);
  }

  /** Rotating by b and then by 64 - b. */
  lemma RotateThere(x: uint64, p: nat, c: nat)
    requires p > 0 && c > 0 && p * c == TWO64 && c * p == TWO64
    ensures RotateAt(RotateAt(x, p, c), c, p) == x
  {
    var hi, lo := x / c, x % c;
    var y := RotateAt(x, p, c);
    RotateBound(x, p, c);
    assert y == lo * p + hi;
    ModUnique(y, p, lo, hi);
    RotateBound(y, c, p);
    assert x == hi * c + lo;
  }

  /** 2^b. */
  function Amount(b: nat): nat
    requires IsAmount(b)
  {
    match b
    case 13 => 0x2000
    case 16 => 0x1_0000
    case 17 => 0x2_0000
    case 21 => 0x20_0000
    case _ => 0x1_0000_0000
  }

  function Rotate(x: uint64, b: nat): uint64 {
    if IsAmount(b) then RotateAt(x, Amount(b), TWO64 / Amount(b)) else x
  }

  function RotateBack(x: uint64, b: nat): uint64 {
    if IsAmount(b) then RotateAt(x, TWO64 / Amount(b), Amount(b)) else x
  }

  function Add(x: uint64, y: uint64): uint64 {
    (x + y) % TWO64
  }

  function Sub(x: uint64, y: uint64): uint64 {
    (x - y) % TWO64
  }

  function Words(): Ops<uint64> {
    Ops(Add, Sub, Xor, Rotate, RotateBack)
  }

  lemma SumUndone(x: uint64, y: uint64)
    ensures Sub(Add(x, y), y) == x && Add(Sub(x, y), y) == x
  {
    assert Add(x, y) == if x + y < TWO64 then x + y else x + y - TWO64;
    assert Sub(x, y) == if x >= y then x - y else x - y + TWO64;
  }

  lemma RotateUndone(x: uint64, b: nat)
    requires IsAmount(b)
    ensures RotateBack(Rotate(x, b), b) == x && Rotate(RotateBack(x, b), b) == x
  {
    RotateThere(x, Amount(b), TWO64 / Amount(b));
    RotateThere(x, TWO64 / Amount(b), Amount(b));
  }

  /** 64-bit words are reversible, so DOUBLE_ROUND is a bijection on four of them. */
  lemma WordsAreReversible()
    ensures Reversible(Words())
  {
    var o := Words();
    forall x: uint64, y: uint64 ensures o.sub(o.add(x, y), y) == x && o.add(o.sub(x, y), y) == x {
      SumUndone(x, y);
    }
    forall x: uint64, y: uint64 ensures o.xor(o.xor(x, y), y) == x {
      XorUndone(x, y);
    }
    forall x: uint64, b: nat | IsAmount(b) ensures o.back(o.rot(x, b), b) == x && o.rot(o.back(x, b), b) == x {
      RotateUndone(x, b);
    }
  }

  // ----- the hash of the paper

  function Constants(): State<uint64> {
    State(0x736f6d6570736575, 0x646f72616e646f6d, 0x6c7967656e657261, 0x7465646279746573)
  }

  /** U8TO64_LE of eight bytes. */
  function Word(b: seq<byte>): uint64 {
    Le(b) % TWO64
  }

  /** The four words just before they are folded. */
  function FinalState(msg: seq<byte>, k0: uint64, k1: uint64): State<uint64> {
    FinalWords(Words(), Word, Initial(Words(), Constants(), k0, k1), 0xff, msg)
  }

  // ----- the code

  /** Eight bytes: those that are left, and zeros. */
  function WithZeros(m: seq<byte>): (t: seq<byte>)
    requires |m| <= 8
    ensures |t| == 8
  {
    m + seq(8 - |m|, _ => 0)
  }

  /** The switch on the number of bytes left, with its fall-through cases. */
  method TailBytes(m: seq<byte>) returns (t: array<byte>)
    requires |m| < 8
    ensures fresh(t) && t[..] == WithZeros(m)
  {
    t := new byte[8](_ => 0);
    var n := |m|;
    if n >= 7 {
      t[6] := m[6];
    }
    if n >= 6 {
      t[5] := m[5];
    }
    if n >= 5 {
      t[4] := m[4];
    }
    if n >= 4 {
      t[0], t[1], t[2], t[3] := m[0], m[1], m[2], m[3];
    } else {
      if n >= 3 {
        t[2] := m[2];
      }
      if n >= 2 {
        t[1] := m[1];
      }
      if n >= 1 {
        t[0] := m[0];
      }
    }
  }

  lemma {:induction false} LeOneMore(low: seq<byte>, top: byte, k: nat)
    requires k == 8 * |low|
    ensures Le(low + [top]) == Le(low) + top * Pow2(k)
  {
    if low == [] {
      assert [top][1..] == [];
    } else {
      LeOneMore(low[1..], top, k - 8);
      Pow2Step8(k - 8);
      assert (low + [top])[1..] == low[1..] + [top];
      assert 0x100 * (top * Pow2(k - 8)) == top * Pow2(k);
    }
  }

  /** Low bytes and a top byte, put together with an or. */
  lemma TopByte(low: seq<byte>, top: byte, k: nat)
    requires k == 8 * |low|
    ensures BitOr(top * Pow2(k), Le(low + [0])) == Le(low + [top])
  {
    LeOneMore(low, top, k);
    LeOneMore(low, 0, k);
    LeBelow(low);
    OrIsSum(top, k, Le(low));
  }

  /** The last word: the remaining bytes, or-ed with the length in the top byte. */
  lemma LastWord(m: seq<byte>, len: nat)
    requires |m| == len % 8
    ensures |m + Padding(len)| == 8
    ensures BitOr(len % 0x100 * Pow2(56), Le(WithZeros(m))) == Le(m + Padding(len))
  {
    var low: seq<byte> := m + seq(7 - |m|, _ => 0);
    var top: byte := len % 0x100;
    assert m + Padding(len) == low + [top];
    assert WithZeros(m) == low + [0];
    TopByte(low, top, 56);
  }

  /** src_sz << 56 on 64 bits. */
  function LengthByte(len: nat): nat {
    len % 0x100 * Pow2(56)
  }

  lemma LastWordFits(m: seq<byte>, len: nat)
    requires |m| == len % 8
    ensures BitOr(LengthByte(len), Le(WithZeros(m))) == Word(m + Padding(len))
  {
    LastWord(m, len);
    Pow64();
    LeBelow(m + Padding(len));
  }

  method TailWord(m: seq<byte>, len: nat) returns (b: uint64)
    requires |m| == len % 8
    ensures b == Word(m + Padding(len))
  {
    var t := TailBytes(m);
    LastWordFits(m, len);
    b := BitOr(LengthByte(len), Le(t[..]));
  }

  /** siphash24; with wantWords it delivers the final state instead of its fold. */
  method SipHash24(src: seq<byte>, k0: uint64, k1: uint64, wantWords: bool) returns (ret: uint64, res: State<uint64>)
    ensures !wantWords ==> ret == Fold(Words(), FinalState(src, k0, k1))
    ensures wantWords ==> res == FinalState(src, k0, k1) && ret == TWO64 - 1
  {
    var tail := |src| / 8 * 8;
    var b := TailWord(src[tail..], |src|);
    ghost var padded := src + Padding(|src|);
    assert padded[tail..] == src[tail..] + Padding(|src|);
    res := HashMessage(Words(), Word, src, Initial(Words(), Constants(), k0, k1), b, 0xff, padded);
    if wantWords {
      ret := TWO64 - 1;
    } else {
      ret := Fold(Words(), res);
    }
  }
}
