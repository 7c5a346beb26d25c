/**
 The x86-64 half of blob_fill_code: what bytes each gadget consists of, and the emitter that
 writes them through a moving pointer.
 */
module Gadget {
  import opened Basics
  import opened X86

  datatype Kind =
    | CallDedicatedRet
    | ForwardCallWithoutRet
    | CallSharedRet
    | JneNeverTaken
    | JneNeverTakenForward
    | JneNeverTakenBackward
    | JeAlwaysTaken
    | JmpWeaved
    | JmpForward

  /** ASSUMED_SZ on x86-64. */
  const BLOB_SIZE := 2 * 1024 * 1024

  function Max(a: int, b: int): int {
    if a > b then a else b
  }

  predicate IsJne(kind: Kind) {
    kind.JneNeverTaken? || kind.JneNeverTakenForward? || kind.JneNeverTakenBackward?
  }

  /** The distance between two consecutive slots for a requested alignment. */
  function Width(kind: Kind, alignment: int): (w: int)
    ensures w >= alignment && w >= 2
  {
    match kind
    case CallDedicatedRet => Max(5, alignment)
    case CallSharedRet => Max(5, alignment)
    case ForwardCallWithoutRet => Max(9, alignment)
    case _ => Max(2, alignment)
  }

  /** call_dedicated_ret has one slot per ret and one per call. */
  function SlotCount(kind: Kind, n: nat): nat {
    if kind.CallDedicatedRet? then 2 * n else n
  }

  /** Where slot i starts; slot SlotCount is the end of the body, where ptr_ret points. */
  function SlotAt(kind: Kind, alignment: int, i: nat): (at: int)
    ensures at >= 64
  {
    if i == 0 then 64 else SlotAt(kind, alignment, i - 1) + Width(kind, alignment)
  }

  lemma {:induction false} SlotAtIsLinear(kind: Kind, alignment: int, i: nat)
    ensures SlotAt(kind, alignment, i) == 64 + i * Width(kind, alignment)
  {
    if i > 0 {
      SlotAtIsLinear(kind, alignment, i - 1);
      assert i * Width(kind, alignment) == (i - 1) * Width(kind, alignment) + Width(kind, alignment);
    }
  }

  lemma {:induction false} SlotsApart(kind: Kind, alignment: int, i: nat, j: nat)
    requires i < j
    ensures SlotAt(kind, alignment, i) + Width(kind, alignment) <= SlotAt(kind, alignment, j)
    decreases j
  {
    if i < j - 1 {
      SlotsApart(kind, alignment, i, j - 1);
    }
  }

  function FnAt(kind: Kind): int {
    if kind.CallDedicatedRet? then 59 else if IsJne(kind) || kind.JeAlwaysTaken? then 57 else 64
  }

  function RetAt(kind: Kind, alignment: int, n: nat): int {
    SlotAt(kind, alignment, SlotCount(kind, n))
  }

  /** The rel8 operand of the conditional gadgets before it is cut to a byte. */
  function Direction(kind: Kind, alignment: int): int {
    match kind
    case JneNeverTakenBackward => 0xfe - alignment
    case JneNeverTakenForward => 0xfe + (alignment + 1)
    case JeAlwaysTaken => 0xfe + alignment
    case _ => 0xfe
  }

  const MOV_DEC: seq<byte> := [0xb9, 0x01, 0x00, 0x00, 0x00, 0xff, 0xc9]

  /** The 64 bytes in front of the first slot. */
  function Head(kind: Kind, alignment: int, n: nat): (bs: seq<byte>)
    ensures |bs| == 64
  {
    match kind
    case CallDedicatedRet => Fill(NOP, 58) + [RET] + ([JMP32] + Le32(Width(kind, alignment) * n))
    case CallSharedRet => Fill(NOP, 62) + [RET] + [NOP]
    case ForwardCallWithoutRet => Fill(NOP, 63) + [RET]
    case JmpWeaved => Fill(NOP, 63) + [RET]
    case JmpForward => Fill(NOP, 63) + [RET]
    case _ => Fill(NOP, 56) + [RET] + MOV_DEC
  }

  function Slot(kind: Kind, alignment: int, n: nat, i: nat): (bs: seq<byte>)
    ensures |bs| == Width(kind, alignment)
  {
    var w := Width(kind, alignment);
    match kind
    case CallDedicatedRet =>
      if i < n then [RET] + Fill(NOP, w - 1)
      else [CALL] + Le32(-w * n - 5) + Fill(NOP, w - 5)
    case CallSharedRet => [CALL] + Le32(62 - (SlotAt(kind, alignment, i) + 5)) + Fill(NOP, w - 5)
    case ForwardCallWithoutRet => [CALL] + Le32(w - 9) + Fill(NOP, w - 9) + [0x48, 0x83, 0xc4, 0x08]
    case JeAlwaysTaken => [JE8, Direction(kind, alignment) % 0x100] + Fill(NOP, w - 2)
    case JmpForward => [JMP8, (w - 2) % 0x100] + Fill(NOP, w - 2)
    case JmpWeaved =>
      var jmp: seq<byte> := [JMP8, (alignment - 2) % 0x100];
      if alignment >= 4 then jmp + jmp + Fill(NOP, w - 4) else jmp + Fill(NOP, w - 2)
    case _ => [JNE8, Direction(kind, alignment) % 0x100] + Fill(NOP, w - 2)
  }

  function Slots(kind: Kind, alignment: int, n: nat, count: nat): (bs: seq<byte>)
    ensures |bs| == SlotAt(kind, alignment, count) - 64
  {
    if count == 0 then [] else Slots(kind, alignment, n, count - 1) + Slot(kind, alignment, n, count - 1)
  }

  function Tail(kind: Kind): seq<byte> {
    if kind.JmpWeaved? then [RET, NOP, RET, NOP] else [RET]
  }

  function Body(kind: Kind, alignment: int, n: nat, count: nat): seq<byte> {
    Head(kind, alignment, n) + Slots(kind, alignment, n, count)
  }

  /** The whole gadget. */
  function Code(kind: Kind, alignment: int, n: nat): seq<byte> {
    Body(kind, alignment, n, SlotCount(kind, n)) + Tail(kind)
  }

  lemma {:induction false} HoldsSlots(code: seq<byte>, kind: Kind, alignment: int, n: nat, count: nat, i: nat)
    requires Holds(code, 64, Slots(kind, alignment, n, count)) && i < count
    ensures Holds(code, SlotAt(kind, alignment, i), Slot(kind, alignment, n, i))
  {
    HoldsParts(code, 64, Slots(kind, alignment, n, count - 1), Slot(kind, alignment, n, count - 1));
    if i < count - 1 {
      HoldsSlots(code, kind, alignment, n, count - 1, i);
    }
  }

  lemma ThreeParts(code: seq<byte>, a: seq<byte>, b: seq<byte>, c: seq<byte>)
    requires Holds(code, 0, a + b + c)
    ensures Holds(code, 0, a) && Holds(code, |a|, b) && Holds(code, |a| + |b|, c)
  {
    HoldsParts(code, 0, a + b, c);
    HoldsParts(code, 0, a, b);
  }

  /** Head, every slot and tail sit where the offsets say. */
  lemma CodeParts(code: seq<byte>, kind: Kind, alignment: int, n: nat)
    requires Holds(code, 0, Code(kind, alignment, n))
    ensures Holds(code, 0, Head(kind, alignment, n))
    ensures Holds(code, 64, Slots(kind, alignment, n, SlotCount(kind, n)))
    ensures Holds(code, RetAt(kind, alignment, n), Tail(kind))
  {
    ThreeParts(code, Head(kind, alignment, n), Slots(kind, alignment, n, SlotCount(kind, n)), Tail(kind));
  }

  lemma NextSlotAt(kind: Kind, alignment: int, n: nat, i: nat)
    requires i < SlotCount(kind, n)
    ensures SlotAt(kind, alignment, i + 1) == SlotAt(kind, alignment, i) + Width(kind, alignment)
    ensures SlotAt(kind, alignment, i + 1) <= RetAt(kind, alignment, n)
  {
    SlotsApart(kind, alignment, i, SlotCount(kind, n));
  }

  lemma BodyGrows(kind: Kind, alignment: int, n: nat, i: nat)
    ensures Body(kind, alignment, n, i + 1) == Body(kind, alignment, n, i) + Slot(kind, alignment, n, i)
  {
    Associative(Head(kind, alignment, n), Slots(kind, alignment, n, i), Slot(kind, alignment, n, i));
  }

  lemma CodeLength(kind: Kind, alignment: int, n: nat)
    ensures |Code(kind, alignment, n)| == RetAt(kind, alignment, n) + |Tail(kind)|
  {
  }

  /** struct blob, with the code memory as an array and the two entry points as offsets into it. */
  class Blob {
    const mem: array<byte>
    var ptrFn: int
    var ptrRet: int

    constructor ()
      ensures fresh(mem) && mem.Length == 0x20_0000
    {
      mem := new byte[BLOB_SIZE](_ => 0);
    }

    method Put(p: nat, x: int) returns (q: nat)
      requires p < mem.Length
      modifies mem
      ensures q == p + 1
      ensures mem[..q] == old(mem[..p]) + [(x % 0x100) as byte]
    {
      mem[p] := x % 0x100;
      q := p + 1;
    }

    method PutN(p: nat, x: byte, n: int) returns (q: nat)
      requires n >= 0 && p + n <= mem.Length
      modifies mem
      ensures q == p + n
      ensures mem[..q] == old(mem[..p]) + Fill(x, n)
    {
      q := p;
      for i := 0 to n
        invariant q == p + i
        invariant mem[..q] == old(mem[..p]) + Fill(x, i)
      {
        assert Fill(x, i + 1) == Fill(x, i) + [x];
        q := Put(q, x);
      }
    }

    method PutQ(p: nat, x: int) returns (q: nat)
      requires p + 4 <= mem.Length
      modifies mem
      ensures q == p + 4
      ensures mem[..q] == old(mem[..p]) + Le32(x)
    {
      var u := x % 0x1_0000_0000;
      ghost var start := mem[..p];
      q := Put(p, u % 0x100);
      q := Put(q, u / 0x100 % 0x100);
      assert mem[..q] == start + [u % 0x100, u / 0x100 % 0x100];
      q := Put(q, u / 0x1_0000 % 0x100);
      assert mem[..q] == start + [u % 0x100, u / 0x100 % 0x100, u / 0x1_0000 % 0x100];
      q := Put(q, u / 0x100_0000 % 0x100);
    }

    method PutSeq(p: nat, bs: seq<byte>) returns (q: nat)
      requires p + |bs| <= mem.Length
      modifies mem
      ensures q == p + |bs|
      ensures mem[..q] == old(mem[..p]) + bs
    {
      q := p;
      for i := 0 to |bs|
        invariant q == p + i
        invariant mem[..q] == old(mem[..p]) + bs[..i]
      {
        q := Put(q, bs[i]);
      }
    }

    /** for (; j < alignment; j++) PUT(0x90) */
    method PutNops(p: nat, from: int, alignment: int) returns (q: nat)
      requires p + Max(0, alignment - from) <= mem.Length
      modifies mem
      ensures q == p + Max(0, alignment - from)
      ensures mem[..q] == old(mem[..p]) + Fill(NOP, alignment - from)
    {
      q := p;
      var j := from;
      while j < alignment
        invariant from <= j <= Max(from, alignment)
        invariant q == p + (j - from)
        invariant mem[..q] == old(mem[..p]) + Fill(NOP, j - from)
      {
        assert Fill(NOP, j + 1 - from) == Fill(NOP, j - from) + [NOP];
        q := Put(q, NOP);
        j := j + 1;
      }
    }

    ghost predicate Emitted(kind: Kind, alignment: int, n: nat)
      reads this, mem
    {
      var code := Code(kind, alignment, n);
      |code| <= mem.Length && mem[..|code|] == code && ptrFn == FnAt(kind) && ptrRet == RetAt(kind, alignment, n)
    }

    /** The call opcode and its displacement. */
    method PutCall(p: nat, rel: int) returns (q: nat)
      requires p + 5 <= mem.Length
      modifies mem
      ensures q == p + 5
      ensures mem[..q] == old(mem[..p]) + ([CALL] + Le32(rel))
    {
      q := Put(p, 0xe8);
      q := PutQ(q, rel);
    }

    /** A two-byte branch; the displacement is cut to a byte. */
    method PutShort(p: nat, op: byte, rel: int) returns (q: nat)
      requires p + 2 <= mem.Length
      modifies mem
      ensures q == p + 2
      ensures mem[..q] == old(mem[..p]) + [op, (rel % 0x100) as byte]
    {
      q := Put(p, op);
      q := Put(q, rel);
    }

    /** The nop sled closed by a ret that every gadget starts with. */
    method PutSledRet(nops: nat) returns (p: nat)
      requires nops + 1 <= mem.Length
      modifies mem
      ensures p == nops + 1 && mem[..p] == Fill(NOP, nops) + [RET]
    {
      p := PutN(0, NOP, nops);
      p := Put(p, 0xc3);
    }

    method PutDedicatedHead(alignment: int, n: nat) returns (p: nat)
      requires 64 <= mem.Length
      modifies this, mem
      ensures p == 64 && mem[..p] == Head(CallDedicatedRet, alignment, n) && ptrFn == 59
    {
      p := PutSledRet(63 - 5);
      ptrFn := p;
      ghost var sled := mem[..p];
      p := Put(p, 0xe9);
      var a := if alignment < 5 then 5 else alignment;
      p := PutQ(p, a * n);
      Associative(sled, [JMP32], Le32(a * n));
    }

    /** What each gadget writes before its first slot; ptr_fn is set on the way. */
    method PutHead(kind: Kind, alignment: int, n: nat) returns (p: nat)
      requires 64 <= mem.Length
      modifies this, mem
      ensures p == 64 && mem[..p] == Head(kind, alignment, n) && ptrFn == FnAt(kind)
    {
      if kind.CallDedicatedRet? {
        p := PutDedicatedHead(alignment, n);
      } else if kind.CallSharedRet? {
        p := PutSledRet(62);
        p := Put(p, 0x90);
        ptrFn := p;
      } else if IsJne(kind) || kind.JeAlwaysTaken? {
        p := PutSledRet(63 - 7);
        ptrFn := p;
        p := PutSeq(p, MOV_DEC);
      } else {
        p := PutSledRet(63);
        ptrFn := p;
      }
    }

    method PutDedicatedSlot(alignment: int, n: nat, i: nat, p: nat) returns (q: nat)
      requires p + Width(CallDedicatedRet, alignment) <= mem.Length
      modifies mem
      ensures q == p + Width(CallDedicatedRet, alignment)
      ensures mem[..q] == old(mem[..p]) + Slot(CallDedicatedRet, alignment, n, i)
    {
      var a := if alignment < 5 then 5 else alignment;
      if i < n {
        q := Put(p, 0xc3);
        q := PutNops(q, 1, a);
        Associative(old(mem[..p]), [RET], Fill(NOP, a - 1));
      } else {
        q := PutCall(p, -a * n - 5);
        q := PutNops(q, 5, a);
        Associative(old(mem[..p]), [CALL] + Le32(-a * n - 5), Fill(NOP, a - 5));
      }
    }

    method PutSharedSlot(alignment: int, n: nat, i: nat, p: nat) returns (q: nat)
      requires p == SlotAt(CallSharedRet, alignment, i) && p + Width(CallSharedRet, alignment) <= mem.Length
      requires ptrFn == 64
      modifies mem
      ensures q == p + Width(CallSharedRet, alignment)
      ensures mem[..q] == old(mem[..p]) + Slot(CallSharedRet, alignment, n, i)
    {
      // the displacement is computed after the opcode has been put
      var r := p + 1;
      var rel := -(r + 5 - ptrFn) - 1;
      q := PutCall(p, rel);
      q := PutNops(q, 5, alignment);
      assert Fill(NOP, alignment - 5) == Fill(NOP, Width(CallSharedRet, alignment) - 5);
      Associative(old(mem[..p]), [CALL] + Le32(rel), Fill(NOP, alignment - 5));
    }

    method PutForwardSlot(alignment: int, n: nat, i: nat, p: nat) returns (q: nat)
      requires p + Width(ForwardCallWithoutRet, alignment) <= mem.Length
      modifies mem
      ensures q == p + Width(ForwardCallWithoutRet, alignment)
      ensures mem[..q] == old(mem[..p]) + Slot(ForwardCallWithoutRet, alignment, n, i)
    {
      var rel := if alignment < 9 then 0 else alignment - 9;
      q := PutCall(p, rel);
      q := PutNops(q, 5, alignment - 4);
      assert Fill(NOP, alignment - 4 - 5) == Fill(NOP, Width(ForwardCallWithoutRet, alignment) - 9);
      Associative(old(mem[..p]), [CALL] + Le32(rel), Fill(NOP, alignment - 4 - 5));
      q := PutSeq(q, [0x48, 0x83, 0xc4, 0x08]);
      Associative(old(mem[..p]), [CALL] + Le32(rel) + Fill(NOP, alignment - 4 - 5), [0x48, 0x83, 0xc4, 0x08]);
    }

    /** The gadgets whose slots start with a two-byte branch. */
    method PutShortSlot(kind: Kind, alignment: int, n: nat, i: nat, p: nat) returns (q: nat)
      requires IsJne(kind) || kind.JeAlwaysTaken? || kind.JmpForward? || kind.JmpWeaved?
      requires p + Width(kind, alignment) <= mem.Length
      modifies mem
      ensures q == p + Width(kind, alignment)
      ensures mem[..q] == old(mem[..p]) + Slot(kind, alignment, n, i)
    {
      var direction := 0xfe;
      var op: byte := 0x75;
      match kind {
        case JneNeverTakenBackward => direction := direction - alignment;
        case JneNeverTakenForward => direction := direction + (alignment + 1);
        case JeAlwaysTaken => op, direction := 0x74, 0xfe + alignment;
        case JmpForward => op, direction := 0xeb, (if alignment < 2 then 2 else alignment) - 2;
        case JmpWeaved => op, direction := 0xeb, alignment - 2;
        case _ =>
      }
      q := PutShort(p, op, direction);
      ghost var one: seq<byte> := [op, direction % 0x100];
      if kind.JmpWeaved? && alignment >= 4 {
        q := PutShort(q, op, direction);
        q := PutNops(q, 4, alignment);
        Associative(old(mem[..p]), one, one);
        Associative(old(mem[..p]), one + one, Fill(NOP, alignment - 4));
      } else {
        q := PutNops(q, 2, alignment);
        assert Fill(NOP, alignment - 2) == Fill(NOP, Width(kind, alignment) - 2);
        Associative(old(mem[..p]), one, Fill(NOP, alignment - 2));
      }
    }

    /** The body of the emitting loops. */
    method PutSlot(kind: Kind, alignment: int, n: nat, i: nat, p: nat) returns (q: nat)
      requires p == SlotAt(kind, alignment, i) && p + Width(kind, alignment) <= mem.Length
      requires ptrFn == FnAt(kind)
      modifies mem
      ensures q == p + Width(kind, alignment)
      ensures mem[..q] == old(mem[..p]) + Slot(kind, alignment, n, i)
    {
      match kind
      case CallDedicatedRet => q := PutDedicatedSlot(alignment, n, i, p);
      case CallSharedRet => q := PutSharedSlot(alignment, n, i, p);
      case ForwardCallWithoutRet => q := PutForwardSlot(alignment, n, i, p);
      case _ => q := PutShortSlot(kind, alignment, n, i, p);
    }

    /** Head and slots: one PUT loop per slot. */
    method PutBody(kind: Kind, alignment: int, n: nat) returns (p: nat)
      requires RetAt(kind, alignment, n) <= mem.Length
      modifies this, mem
      ensures p == RetAt(kind, alignment, n) && mem[..p] == Body(kind, alignment, n, SlotCount(kind, n))
      ensures ptrFn == FnAt(kind)
    {
      CodeLength(kind, alignment, n);
      var count := SlotCount(kind, n);
      p := PutHead(kind, alignment, n);
      ghost var built := Body(kind, alignment, n, 0);
      assert mem[..p] == built;
      for i := 0 to count
        invariant p == SlotAt(kind, alignment, i) <= RetAt(kind, alignment, n)
        invariant mem[..p] == built
        invariant built == Body(kind, alignment, n, i)
        invariant ptrFn == FnAt(kind)
      {
        NextSlotAt(kind, alignment, n, i);
        BodyGrows(kind, alignment, n, i);
        p := PutSlot(kind, alignment, n, i, p);
        built := built + Slot(kind, alignment, n, i);
      }
    }

    /** blob_fill_code for a gadget that fits the blob. */
    method FillCode(kind: Kind, alignment: int, n: nat)
      requires |Code(kind, alignment, n)| <= mem.Length
      modifies this, mem
      ensures Emitted(kind, alignment, n)
    {
      CodeLength(kind, alignment, n);
      var p := PutBody(kind, alignment, n);
      ptrRet := p;
      p := PutSeq(p, Tail(kind));
    }
  }
}
