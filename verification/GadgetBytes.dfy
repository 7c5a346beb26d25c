/**
 The emitted gadgets byte by byte, with the opcodes and the spacing written out: what a reader of
 the disassembly sees, apart from the functions that the emitter is proved against.
 */
module GadgetBytes {
  import opened Basics
  import opened X86
  import opened Gadget
  import opened GadgetRuns

  ghost predicate Nops(code: seq<byte>, from: int, to: int) {
    0 <= from <= to <= |code| && forall j :: from <= j < to ==> code[j] == 0x90
  }

  /** The four bytes from at on are x, cut to 32 bits, low byte first. */
  predicate Operand32(code: seq<byte>, at: int, x: int) {
    && 0 <= at && at + 4 <= |code|
    && code[at] as int + 0x100 * code[at + 1] as int + 0x1_0000 * code[at + 2] as int + 0x100_0000 * code[at + 3] as int
       == x % 0x1_0000_0000
  }

  lemma NopsAt(code: seq<byte>, at: int, n: int)
    requires Holds(code, at, Fill(NOP, n)) && n >= 0
    ensures Nops(code, at, at + n)
  {
    forall j | at <= j < at + n ensures code[j] == 0x90 { ByteAt(code, at, Fill(NOP, n), j - at); }
  }

  lemma Operand32At(code: seq<byte>, at: int, x: int)
    requires Holds(code, at, Le32(x))
    ensures Operand32(code, at, x)
  {
    var bs, u := Le32(x), x % 0x1_0000_0000;
    ByteAt(code, at, bs, 0);
    ByteAt(code, at, bs, 1);
    ByteAt(code, at, bs, 2);
    ByteAt(code, at, bs, 3);
    var q1, q2, q3 := u / 0x100, u / 0x1_0000, u / 0x100_0000;
    assert q2 == q1 / 0x100 && q3 == q2 / 0x100 && 0 <= q3 < 0x100;
  }

  /** A call and the bytes behind it. */
  lemma CallAt(code: seq<byte>, at: int, x: int, later: seq<byte>)
    requires Holds(code, at, [CALL] + Le32(x) + later)
    ensures code[at] == 0xe8 && Operand32(code, at + 1, x) && Holds(code, at + 5, later)
  {
    HoldsParts(code, at, [CALL] + Le32(x), later);
    HoldsParts(code, at, [CALL], Le32(x));
    ByteAt(code, at, [CALL], 0);
    Operand32At(code, at + 1, x);
  }

  lemma ShortAt(code: seq<byte>, at: int, op: byte, operand: byte, later: seq<byte>)
    requires Holds(code, at, [op, operand] + later)
    ensures code[at] == op && code[at + 1] == operand && Holds(code, at + 2, later)
  {
    HoldsParts(code, at, [op, operand], later);
    ByteAt(code, at, [op, operand], 0);
    ByteAt(code, at, [op, operand], 1);
  }

  // ----- where things are

  /** The slots are spaced by the alignment, but by no less than 5, 9 or 2 bytes. */
  lemma SlotsAreSpaced(kind: Kind, alignment: int, n: nat, i: nat)
    ensures kind.CallDedicatedRet? || kind.CallSharedRet? ==>
              SlotAt(kind, alignment, i) == 64 + i * (if alignment > 5 then alignment else 5)
    ensures kind.ForwardCallWithoutRet? ==>
              SlotAt(kind, alignment, i) == 64 + i * (if alignment > 9 then alignment else 9)
    ensures !kind.CallDedicatedRet? && !kind.CallSharedRet? && !kind.ForwardCallWithoutRet? ==>
              SlotAt(kind, alignment, i) == 64 + i * (if alignment > 2 then alignment else 2)
  {
    SlotAtIsLinear(kind, alignment, i);
  }

  /** Where the entry points of a filled blob are: ptr_fn, and ptr_ret behind the last slot. */
  lemma EntryPoints(kind: Kind, alignment: int, n: nat)
    ensures FnAt(kind) == match kind
                          case CallDedicatedRet => 59
                          case JneNeverTaken => 57
                          case JneNeverTakenForward => 57
                          case JneNeverTakenBackward => 57
                          case JeAlwaysTaken => 57
                          case _ => 64
    ensures RetAt(kind, alignment, n) == match kind
                                         case CallDedicatedRet => 64 + 2 * n * (if alignment > 5 then alignment else 5)
                                         case CallSharedRet => 64 + n * (if alignment > 5 then alignment else 5)
                                         case ForwardCallWithoutRet => 64 + n * (if alignment > 9 then alignment else 9)
                                         case _ => 64 + n * (if alignment > 2 then alignment else 2)
  {
    SlotsAreSpaced(kind, alignment, n, if kind.CallDedicatedRet? then 2 * n else n);
  }

  // ----- the branches that a run executes

  lemma LogAt(kind: Kind, alignment: int, n: nat, i: nat, e: nat)
    requires i < n && e < PerSlot(kind)
    ensures var entries := if kind.CallDedicatedRet? then 1 else 0;
            && |FullLog(kind, alignment, n)| == entries + PerSlot(kind) * n
            && entries + PerSlot(kind) * i + e < |FullLog(kind, alignment, n)|
            && FullLog(kind, alignment, n)[entries + PerSlot(kind) * i + e] == SlotLog(kind, alignment, n, i)[e]
  {
    BodyLogAt(kind, alignment, n, n, i, e);
    assert FullLog(kind, alignment, n)[|EntryLog(kind, alignment, n)|..] == BodyLog(kind, alignment, n, n);
  }

  /** call_dedicated_ret: a jump over the rets, then calls w bytes apart, each with the ret n slots before it. */
  lemma DedicatedLog(alignment: int, n: nat, i: nat, w: int, ret: int, call: int)
    requires i < n && w == (if alignment > 5 then alignment else 5)
    requires ret == 64 + i * w && call == 64 + (n + i) * w
    ensures var log := FullLog(CallDedicatedRet, alignment, n);
            && |log| == 2 * n + 1 && log[0] == Branch(0xe9, 59, 64 + n * w)
            && log[2 * i + 1] == Branch(0xe8, call, ret) && log[2 * i + 2] == Branch(0xc3, ret, call + 5)
  {
    LogAt(CallDedicatedRet, alignment, n, i, 0);
    LogAt(CallDedicatedRet, alignment, n, i, 1);
    SlotsAreSpaced(CallDedicatedRet, alignment, n, n);
    SlotsAreSpaced(CallDedicatedRet, alignment, n, i);
    SlotsAreSpaced(CallDedicatedRet, alignment, n, n + i);
  }

  /** call_shared_ret: calls w bytes apart, all with the ret at 62. */
  lemma SharedLog(alignment: int, n: nat, i: nat, call: int)
    requires i < n && call == 64 + i * (if alignment > 5 then alignment else 5)
    ensures var log := FullLog(CallSharedRet, alignment, n);
            |log| == 2 * n && log[2 * i] == Branch(0xe8, call, 62) && log[2 * i + 1] == Branch(0xc3, 62, call + 5)
  {
    LogAt(CallSharedRet, alignment, n, i, 0);
    LogAt(CallSharedRet, alignment, n, i, 1);
    SlotsAreSpaced(CallSharedRet, alignment, n, i);
  }

  /** forward_call_without_ret: calls w bytes apart, each four bytes short of the next one. */
  lemma ForwardLog(alignment: int, n: nat, i: nat, w: int, call: int)
    requires i < n && w == (if alignment > 9 then alignment else 9) && call == 64 + i * w
    ensures var log := FullLog(ForwardCallWithoutRet, alignment, n);
            |log| == n && log[i] == Branch(0xe8, call, call + w - 4)
  {
    LogAt(ForwardCallWithoutRet, alignment, n, i, 0);
    SlotsAreSpaced(ForwardCallWithoutRet, alignment, n, i);
  }

  /** The other gadgets: branches w bytes apart, over a displacement cut to eight bits and read as signed. */
  lemma ShortLog(kind: Kind, alignment: int, n: nat, i: nat, w: int, at: int)
    requires i < n && !kind.CallDedicatedRet? && !kind.CallSharedRet? && !kind.ForwardCallWithoutRet?
    requires w == (if alignment > 2 then alignment else 2) && at == 64 + i * w
    ensures var log, cut := FullLog(kind, alignment, n), (alignment - 2) % 0x100;
            var signed := if cut < 0x80 then cut else cut - 0x100;
            && |log| == n
            && (IsJne(kind) ==> log[i] == Branch(0x75, at, at + 2))
            && (kind.JeAlwaysTaken? ==> log[i] == Branch(0x74, at, at + 2 + signed))
            && (kind.JmpWeaved? ==> log[i] == Branch(0xeb, at, at + 2 + signed))
            && (kind.JmpForward? ==> log[i] == Branch(0xeb, at, at + 2 + if alignment < 2 then 0 else signed))
  {
    LogAt(kind, alignment, n, i, 0);
    SlotsAreSpaced(kind, alignment, n, i);
    assert (0xfe + alignment) % 0x100 == (alignment - 2) % 0x100;
  }

  // ----- the bytes of the slots, which are w bytes apart

  lemma SlotIsThere(code: seq<byte>, kind: Kind, alignment: int, n: nat, i: nat, w: int, at: int)
    requires Loaded(code, kind, alignment, n) && i < SlotCount(kind, n)
    requires w == Width(kind, alignment) && at == 64 + i * w
    ensures at == SlotAt(kind, alignment, i) && 64 <= at && at + w <= |code|
    ensures Holds(code, at, Slot(kind, alignment, n, i))
  {
    SlotAtIsLinear(kind, alignment, i);
    SlotBytes(code, kind, alignment, n, i);
  }

  /** call_dedicated_ret: first n slots with a ret and nops. */
  lemma DedicatedRetBytes(code: seq<byte>, alignment: int, n: nat, i: nat, w: nat, at: nat)
    requires Loaded(code, CallDedicatedRet, alignment, n) && i < n
    requires w == (if alignment > 5 then alignment else 5) && at == 64 + i * w
    ensures at + w <= |code| && code[at] == 0xc3 && Nops(code, at + 1, at + w)
  {
    SlotIsThere(code, CallDedicatedRet, alignment, n, i, w, at);
    HoldsParts(code, at, [RET], Fill(NOP, w - 1));
    ByteAt(code, at, [RET], 0);
    NopsAt(code, at + 1, w - 1);
  }

  /** And then n slots with a call back to the ret n slots before. */
  lemma DedicatedCallBytes(code: seq<byte>, alignment: int, n: nat, i: nat, w: nat, at: nat)
    requires Loaded(code, CallDedicatedRet, alignment, n) && i < n
    requires w == (if alignment > 5 then alignment else 5) && at == 64 + (n + i) * w
    ensures at + w <= |code| && code[at] == 0xe8 && Nops(code, at + 5, at + w)
    ensures Operand32(code, at + 1, at - n * w - (at + 5))
  {
    var x := at - n * w - (at + 5);
    DedicatedCallHolds(code, alignment, n, i, w, at, x);
    CallAt(code, at, x, Fill(NOP, w - 5));
    NopsAt(code, at + 5, w - 5);
  }

  lemma DedicatedCallHolds(code: seq<byte>, alignment: int, n: nat, i: nat, w: nat, at: nat, x: int)
    requires Loaded(code, CallDedicatedRet, alignment, n) && i < n
    requires w == (if alignment > 5 then alignment else 5) && at == 64 + (n + i) * w && x == -(n * w) - 5
    ensures at + w <= |code| && Holds(code, at, [CALL] + Le32(x) + Fill(NOP, w - 5))
  {
    SlotIsThere(code, CallDedicatedRet, alignment, n, n + i, w, at);
    DedicatedOperands(alignment, n, i, w, x, n * w);
  }

  lemma DedicatedOperands(alignment: int, n: nat, i: nat, w: int, x: int, y: int)
    requires w == (if alignment > 5 then alignment else 5) && x == -(n * w) - 5 && y == n * w
    ensures Slot(CallDedicatedRet, alignment, n, n + i) == [CALL] + Le32(x) + Fill(NOP, w - 5)
    ensures Head(CallDedicatedRet, alignment, n) == Fill(NOP, 58) + [RET] + ([JMP32] + Le32(y))
  {
    assert -w * n - 5 == x && w * n == y;
  }

  /** call_shared_ret: calls to the ret at 62. */
  lemma SharedBytes(code: seq<byte>, alignment: int, n: nat, i: nat, w: nat, at: nat)
    requires Loaded(code, CallSharedRet, alignment, n) && i < n
    requires w == (if alignment > 5 then alignment else 5) && at == 64 + i * w
    ensures at + w <= |code| && code[at] == 0xe8 && Nops(code, at + 5, at + w)
    ensures Operand32(code, at + 1, 62 - (at + 5))
  {
    SlotIsThere(code, CallSharedRet, alignment, n, i, w, at);
    CallAt(code, at, 62 - (at + 5), Fill(NOP, w - 5));
    NopsAt(code, at + 5, w - 5);
  }

  /** forward_call_without_ret: calls to add $8, %rsp at the end of their own slot. */
  lemma ForwardBytes(code: seq<byte>, alignment: int, n: nat, i: nat, w: nat, at: nat)
    requires Loaded(code, ForwardCallWithoutRet, alignment, n) && i < n
    requires w == (if alignment > 9 then alignment else 9) && at == 64 + i * w
    ensures at + w <= |code| && code[at] == 0xe8 && Nops(code, at + 5, at + w - 4)
    ensures Operand32(code, at + 1, at + w - 4 - (at + 5))
    ensures code[at + w - 4] == 0x48 && code[at + w - 3] == 0x83 && code[at + w - 2] == 0xc4 && code[at + w - 1] == 0x08
  {
    SlotIsThere(code, ForwardCallWithoutRet, alignment, n, i, w, at);
    var add: seq<byte> := [0x48, 0x83, 0xc4, 0x08];
    HoldsParts(code, at, [CALL] + Le32(w - 9) + Fill(NOP, w - 9), add);
    CallAt(code, at, w - 9, Fill(NOP, w - 9));
    NopsAt(code, at + 5, w - 9);
    ByteAt(code, at + w - 4, add, 0);
    ByteAt(code, at + w - 4, add, 1);
    ByteAt(code, at + w - 4, add, 2);
    ByteAt(code, at + w - 4, add, 3);
  }

  /** The gadgets of two-byte branches: the opcode, the operand cut to a byte, and nops. */
  lemma ShortBranchBytes(code: seq<byte>, kind: Kind, alignment: int, n: nat, i: nat, w: nat, at: nat)
    requires Loaded(code, kind, alignment, n) && i < n
    requires IsJne(kind) || kind.JeAlwaysTaken? || kind.JmpForward?
    requires w == (if alignment > 2 then alignment else 2) && at == 64 + i * w
    ensures at + w <= |code| && Nops(code, at + 2, at + w)
    ensures kind.JneNeverTaken? ==> code[at] == 0x75 && code[at + 1] == 0xfe
    ensures kind.JneNeverTakenForward? ==> code[at] == 0x75 && code[at + 1] == (alignment - 1) % 0x100
    ensures kind.JneNeverTakenBackward? ==> code[at] == 0x75 && code[at + 1] == (0xfe - alignment) % 0x100
    ensures kind.JeAlwaysTaken? ==> code[at] == 0x74 && code[at + 1] == (alignment - 2) % 0x100
    ensures kind.JmpForward? ==> code[at] == 0xeb && code[at + 1] == (w - 2) % 0x100
  {
    ShortBranchAt(code, kind, alignment, n, i, w, at);
    OperandsAre(kind, alignment);
  }

  lemma ShortBranchAt(code: seq<byte>, kind: Kind, alignment: int, n: nat, i: nat, w: nat, at: nat)
    requires Loaded(code, kind, alignment, n) && i < n
    requires IsJne(kind) || kind.JeAlwaysTaken? || kind.JmpForward?
    requires w == Width(kind, alignment) && at == 64 + i * w
    ensures at + w <= |code| && Nops(code, at + 2, at + w)
    ensures code[at] == ShortOp(kind) && code[at + 1] == Operand(kind, alignment)
  {
    ShortSlotHolds(code, kind, alignment, n, i, w, at, ShortOp(kind), Operand(kind, alignment));
    ShortAt(code, at, ShortOp(kind), Operand(kind, alignment), Fill(NOP, w - 2));
    NopsAt(code, at + 2, w - 2);
  }

  lemma ShortSlotHolds(code: seq<byte>, kind: Kind, alignment: int, n: nat, i: nat, w: nat, at: nat, op: byte,
                       operand: byte)
    requires Loaded(code, kind, alignment, n) && i < n
    requires IsJne(kind) || kind.JeAlwaysTaken? || kind.JmpForward?
    requires w == Width(kind, alignment) && at == 64 + i * w
    requires op == ShortOp(kind) && operand == Operand(kind, alignment)
    ensures at + w <= |code| && Holds(code, at, [op, operand] + Fill(NOP, w - 2))
  {
    SlotIsThere(code, kind, alignment, n, i, w, at);
    assert Slot(kind, alignment, n, i) == [op, operand] + Fill(NOP, w - 2);
  }

  lemma OperandsAre(kind: Kind, alignment: int)
    ensures kind.JneNeverTaken? ==> Operand(kind, alignment) == 0xfe
    ensures kind.JneNeverTakenForward? ==> Operand(kind, alignment) == (alignment - 1) % 0x100
    ensures kind.JneNeverTakenBackward? ==> Operand(kind, alignment) == (0xfe - alignment) % 0x100
    ensures kind.JeAlwaysTaken? ==> Operand(kind, alignment) == (alignment - 2) % 0x100
  {
    assert (0xfe + (alignment + 1)) % 0x100 == (alignment - 1) % 0x100;
    assert (0xfe + alignment) % 0x100 == (alignment - 2) % 0x100;
  }

  /** jmp_weaved: from an alignment of 4 on two jumps, otherwise one, and nops. */
  lemma WeavedSlotBytes(code: seq<byte>, alignment: int, n: nat, i: nat, w: nat, at: nat)
    requires Loaded(code, JmpWeaved, alignment, n) && i < n
    requires w == (if alignment > 2 then alignment else 2) && at == 64 + i * w
    ensures at + w <= |code| && code[at] == 0xeb && code[at + 1] == (alignment - 2) % 0x100
    ensures alignment >= 4 ==> code[at + 2] == 0xeb && code[at + 3] == (alignment - 2) % 0x100
    ensures Nops(code, at + (if alignment >= 4 then 4 else 2), at + w)
  {
    SlotIsThere(code, JmpWeaved, alignment, n, i, w, at);
    WeavedBytes(code, alignment, n, i);
    var operand := Operand(JmpWeaved, alignment);
    ByteAt(code, at, [JMP8, operand], 0);
    ByteAt(code, at, [JMP8, operand], 1);
    if alignment >= 4 {
      ByteAt(code, at + 2, [JMP8, operand], 0);
      ByteAt(code, at + 2, [JMP8, operand], 1);
      NopsAt(code, at + 4, w - 4);
    } else {
      NopsAt(code, at + 2, w - 2);
    }
  }

  // ----- in front of the slots and behind them

  /** Nops and a ret in front of the entry point. */
  lemma FrontBytes(code: seq<byte>, kind: Kind, alignment: int, n: nat, nops: nat, later: seq<byte>)
    requires Loaded(code, kind, alignment, n) && Head(kind, alignment, n) == Fill(NOP, nops) + [RET] + later
    ensures Nops(code, 0, nops) && code[nops] == 0xc3 && Holds(code, nops + 1, later)
  {
    HoldsParts(code, 0, Fill(NOP, nops) + [RET], later);
    HoldsParts(code, 0, Fill(NOP, nops), [RET]);
    NopsAt(code, 0, nops);
    ByteAt(code, nops, [RET], 0);
  }

  /** call_dedicated_ret starts with a jump over its rets. */
  lemma DedicatedFront(code: seq<byte>, alignment: int, n: nat)
    requires Loaded(code, CallDedicatedRet, alignment, n)
    ensures Nops(code, 0, 58) && code[58] == 0xc3 && code[59] == 0xe9
    ensures Operand32(code, 60, n * (if alignment > 5 then alignment else 5))
  {
    var w := if alignment > 5 then alignment else 5;
    var x := n * w;
    DedicatedOperands(alignment, n, 0, w, -x - 5, x);
    FrontBytes(code, CallDedicatedRet, alignment, n, 58, [JMP32] + Le32(x));
    HoldsParts(code, 59, [JMP32], Le32(x));
    ByteAt(code, 59, [JMP32], 0);
    Operand32At(code, 60, x);
  }

  lemma SharedFront(code: seq<byte>, alignment: int, n: nat)
    requires Loaded(code, CallSharedRet, alignment, n)
    ensures Nops(code, 0, 62) && code[62] == 0xc3 && code[63] == 0x90
  {
    FrontBytes(code, CallSharedRet, alignment, n, 62, [NOP]);
    ByteAt(code, 63, [NOP], 0);
  }

  lemma PlainFront(code: seq<byte>, kind: Kind, alignment: int, n: nat)
    requires Loaded(code, kind, alignment, n) && (kind.ForwardCallWithoutRet? || kind.JmpWeaved? || kind.JmpForward?)
    ensures Nops(code, 0, 63) && code[63] == 0xc3
  {
    assert Head(kind, alignment, n) == Fill(NOP, 63) + [RET] + [];
    FrontBytes(code, kind, alignment, n, 63, []);
  }

  /** The conditional gadgets set the zero flag: mov $1, %ecx and dec %ecx. */
  lemma ConditionalFront(code: seq<byte>, kind: Kind, alignment: int, n: nat)
    requires Loaded(code, kind, alignment, n) && (IsJne(kind) || kind.JeAlwaysTaken?)
    ensures Nops(code, 0, 56) && code[56] == 0xc3
    ensures code[57] == 0xb9 && Operand32(code, 58, 1) && code[62] == 0xff && code[63] == 0xc9
  {
    FrontBytes(code, kind, alignment, n, 56, MOV_DEC);
    forall j | 0 <= j < 7 ensures code[57 + j] == MOV_DEC[j] { ByteAt(code, 57, MOV_DEC, j); }
    assert code[57] == MOV_DEC[0] && code[58] == MOV_DEC[1] && code[59] == MOV_DEC[2] && code[60] == MOV_DEC[3];
    assert code[61] == MOV_DEC[4] && code[62] == MOV_DEC[5] && code[63] == MOV_DEC[6];
  }

  /** A ret at ptr_ret; jmp_weaved has another one two bytes on. */
  lemma EndBytes(code: seq<byte>, kind: Kind, alignment: int, n: nat, at: nat)
    requires Loaded(code, kind, alignment, n) && at == RetAt(kind, alignment, n)
    ensures at < |code| && code[at] == 0xc3
    ensures kind.JmpWeaved? ==> at + 3 < |code| && code[at + 1] == 0x90 && code[at + 2] == 0xc3 && code[at + 3] == 0x90
  {
    ByteAt(code, at, Tail(kind), 0);
    if kind.JmpWeaved? {
      ByteAt(code, at, Tail(kind), 1);
      ByteAt(code, at, Tail(kind), 2);
      ByteAt(code, at, Tail(kind), 3);
    }
  }
}
