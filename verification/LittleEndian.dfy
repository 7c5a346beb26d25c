/** Little-endian numbers in memory. */
module LittleEndian {
  import opened Basics
  import opened Arith

  /** Bytes as a little-endian number. */
  function Le(b: seq<byte>): nat {
    if b == [] then 0 else b[0] + 0x100 * Le(b[1..])
  }

  lemma {:induction false} LeBelow(b: seq<byte>)
    ensures Le(b) < Pow2(8 * |b|)
  {
    if b != [] {
      LeBelow(b[1..]);
      Pow2Step8(8 * |b[1..]|);
    }
  }

  /** The n low bytes of a number. */
  function ToLe(v: nat, n: nat): (bs: seq<byte>)
    ensures |bs| == n
  {
    if n == 0 then [] else [v % 0x100] + ToLe(v / 0x100, n - 1)
  }

  lemma {:induction false} LeOfToLe(v: nat, n: nat)
    requires v < Pow2(8 * n)
    ensures Le(ToLe(v, n)) == v
    decreases n
  {
    if n > 0 {
      Pow2Step8(8 * (n - 1));
      LeOfToLe(v / 0x100, n - 1);
      assert ToLe(v, n)[1..] == ToLe(v / 0x100, n - 1);
    }
  }

  /** What memory holds after bytes have been stored at an address. */
  function Stored(mem: seq<byte>, at: nat, bs: seq<byte>): (r: seq<byte>)
    requires at + |bs| <= |mem|
    ensures |r| == |mem|
    ensures forall j :: 0 <= j < |mem| ==> r[j] == if at <= j < at + |bs| then bs[j - at] else mem[j]
  {
    mem[..at] + bs + mem[at + |bs|..]
  }

  lemma StoredTwice(mem: seq<byte>, at: nat, a: seq<byte>, b: seq<byte>)
    requires at + |a| + |b| <= |mem|
    ensures Stored(Stored(mem, at, a), at + |a|, b) == Stored(mem, at, a + b)
  {
  }

  method Store(mem: array<byte>, at: nat, bs: seq<byte>)
    requires at + |bs| <= mem.Length
    modifies mem
    ensures mem[..] == Stored(old(mem[..]), at, bs)
  {
    for k := 0 to |bs|
      invariant forall j :: 0 <= j < mem.Length ==> mem[j] == if at <= j < at + k then bs[j - at] else old(mem[j])
    {
      mem[at + k] := bs[k];
    }
  }
}
