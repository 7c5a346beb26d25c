/**
 What running the emitted bytes does: for every gadget and every number of slots, exactly
 which branches are executed, in which order, and where control ends.
 */
module GadgetRuns {
  import opened Basics
  import opened X86
  import opened Gadget

  /** Head, slots and tail of the gadget sit at their places in the blob; anything may follow. */
  ghost predicate Loaded(code: seq<byte>, kind: Kind, alignment: int, n: nat) {
    && 64 <= RetAt(kind, alignment, n) <= |code| <= BLOB_SIZE
    && Holds(code, 0, Head(kind, alignment, n))
    && Holds(code, 64, Slots(kind, alignment, n, SlotCount(kind, n)))
    && Holds(code, RetAt(kind, alignment, n), Tail(kind))
  }

  /** What blob_fill_code leaves behind is loaded. */
  lemma EmittedIsLoaded(code: seq<byte>, kind: Kind, alignment: int, n: nat)
    requires Code(kind, alignment, n) <= code && |code| <= BLOB_SIZE
    ensures Loaded(code, kind, alignment, n)
  {
    CodeLength(kind, alignment, n);
    CodeParts(code, kind, alignment, n);
  }

  lemma FilledBlobIsLoaded(blob: Blob, kind: Kind, alignment: int, n: nat)
    requires blob.mem.Length == 0x20_0000 && blob.Emitted(kind, alignment, n)
    ensures Loaded(blob.mem[..], kind, alignment, n)
    ensures blob.ptrFn == FnAt(kind) && blob.ptrRet == RetAt(kind, alignment, n)
  {
    EmittedIsLoaded(blob.mem[..], kind, alignment, n);
  }

  /** The byte-sized operand of a short branch: the displacement cut to eight bits. */
  function Operand(kind: Kind, alignment: int): byte {
    (if kind.JmpForward? then Width(kind, alignment) - 2
     else if kind.JmpWeaved? then alignment - 2
     else Direction(kind, alignment)) % 0x100
  }

  /** The displacement that the byte-sized operand of a short branch really encodes. */
  function ShortDisp(kind: Kind, alignment: int): int {
    Signed8(Operand(kind, alignment))
  }

  /** The alignments for which a gadget jumps from slot to slot. */
  predicate Legal(kind: Kind, alignment: int) {
    var cut := (alignment - 2) % 0x100;
    match kind
    case JmpForward => alignment < 2 || cut < 0x80
    case JeAlwaysTaken => cut == 0 || (alignment >= 2 && cut < 0x80)
    case JmpWeaved => if alignment < 2 then cut == 0 else alignment <= 129 || 2 <= cut < 0x80
    case _ => true
  }

  /** The gadgets whose branches test the zero flag. */
  predicate NeedsZero(kind: Kind) {
    IsJne(kind) || kind.JeAlwaysTaken?
  }

  /** Slot i of the measured branches; call_dedicated_ret keeps its rets in front of its calls. */
  function CallSlot(kind: Kind, alignment: int, n: nat, i: nat): int {
    SlotAt(kind, alignment, if kind.CallDedicatedRet? then n + i else i)
  }

  /** The branches that slot i contributes. */
  function SlotLog(kind: Kind, alignment: int, n: nat, i: nat): seq<Branch> {
    var at := CallSlot(kind, alignment, n, i);
    match kind
    case CallDedicatedRet =>
      [Branch(CALL, at, SlotAt(kind, alignment, i)), Branch(RET, SlotAt(kind, alignment, i), at + 5)]
    case CallSharedRet => [Branch(CALL, at, 62), Branch(RET, 62, at + 5)]
    case ForwardCallWithoutRet => [Branch(CALL, at, SlotAt(kind, alignment, i + 1) - 4)]
    case JmpForward => [Branch(JMP8, at, at + 2 + ShortDisp(kind, alignment))]
    case JmpWeaved => [Branch(JMP8, at, at + 2 + ShortDisp(kind, alignment))]
    case JeAlwaysTaken => [Branch(JE8, at, at + 2 + ShortDisp(kind, alignment))]
    case _ => [Branch(JNE8, at, at + 2)]
  }

  function BodyLog(kind: Kind, alignment: int, n: nat, m: nat): seq<Branch> {
    if m == 0 then [] else BodyLog(kind, alignment, n, m - 1) + SlotLog(kind, alignment, n, m - 1)
  }

  function EntryLog(kind: Kind, alignment: int, n: nat): seq<Branch> {
    if kind.CallDedicatedRet? then [Branch(JMP32, 59, CallSlot(kind, alignment, n, 0))] else []
  }

  /** The branches of a whole run, up to but not including the closing ret. */
  function FullLog(kind: Kind, alignment: int, n: nat): seq<Branch> {
    EntryLog(kind, alignment, n) + BodyLog(kind, alignment, n, n)
  }

  /** Some run from c gets to ip with c's stack back in place, having executed exactly the given branches. */
  ghost predicate Arrives(code: seq<byte>, c: Cpu, ip: int, log: seq<Branch>) {
    exists c' :: Reaches(code, c, c') && c'.ip == ip && c'.stack == c.stack && c'.log == c.log + log
  }

  // ----- one slot of each gadget

  lemma SlotBytes(code: seq<byte>, kind: Kind, alignment: int, n: nat, i: nat)
    requires Loaded(code, kind, alignment, n) && i < SlotCount(kind, n)
    ensures Holds(code, SlotAt(kind, alignment, i), Slot(kind, alignment, n, i))
    ensures SlotAt(kind, alignment, i + 1) == SlotAt(kind, alignment, i) + Width(kind, alignment) <= BLOB_SIZE
    ensures SlotAt(kind, alignment, i) >= 64
  {
    HoldsSlots(code, kind, alignment, n, SlotCount(kind, n), i);
    NextSlotAt(kind, alignment, n, i);
  }

  /** A call, the ret it reaches, and the nops behind the call. */
  lemma CallRetSled(code: seq<byte>, c: Cpu, rel: int, retAt: int, w: int)
    requires w >= 5 && -0x8000_0000 <= rel < 0x8000_0000 && retAt == c.ip + 5 + rel
    requires Holds(code, c.ip, [CALL] + Le32(rel) + Fill(NOP, w - 5)) && Holds(code, retAt, [RET])
    ensures Reaches(code, c,
                    c.(ip := c.ip + w, log := c.log + [Branch(CALL, c.ip, retAt), Branch(RET, retAt, c.ip + 5)]))
  {
    HoldsParts(code, c.ip, [CALL] + Le32(rel), Fill(NOP, w - 5));
    CallStep(code, c, rel);
    var c1 := Jump(c, CALL, retAt).(stack := c.stack + [c.ip + 5]);
    RetStep(code, c1, c.ip + 5, c.stack);
    var c2 := Jump(c1, RET, c.ip + 5).(stack := c.stack);
    Sled(code, c2, w - 5);
    var c3 := c2.(ip := c2.ip + (w - 5));
    ReachesTrans(code, c, c1, c2);
    ReachesTrans(code, c, c2, c3);
    assert c2.log == c.log + [Branch(CALL, c.ip, retAt), Branch(RET, retAt, c.ip + 5)];
  }

  /** The shared displacement of call_dedicated_ret takes call i to ret i. */
  lemma DedicatedDisp(alignment: int, n: nat, i: nat)
    ensures var w := Width(CallDedicatedRet, alignment);
            CallSlot(CallDedicatedRet, alignment, n, i) + 5 + (-w * n - 5) == SlotAt(CallDedicatedRet, alignment, i)
  {
    var w := Width(CallDedicatedRet, alignment);
    SlotAtIsLinear(CallDedicatedRet, alignment, i);
    SlotAtIsLinear(CallDedicatedRet, alignment, n + i);
    assert (n + i) * w == n * w + i * w;
  }

  lemma DedicatedSize(alignment: int, n: nat)
    ensures var w := Width(CallDedicatedRet, alignment);
            w * n >= 0 && CallSlot(CallDedicatedRet, alignment, n, 0) == 64 + w * n
            && RetAt(CallDedicatedRet, alignment, n) == 64 + 2 * (w * n)
  {
    var w := Width(CallDedicatedRet, alignment);
    SlotAtIsLinear(CallDedicatedRet, alignment, n);
    SlotAtIsLinear(CallDedicatedRet, alignment, 2 * n);
    assert (2 * n) * w == 2 * (w * n);
  }

  /** Call i and the ret it goes to. */
  lemma DedicatedSlotIs(code: seq<byte>, alignment: int, n: nat, i: nat, at: int, w: int, rel: int)
    requires Loaded(code, CallDedicatedRet, alignment, n) && i < n
    requires at == CallSlot(CallDedicatedRet, alignment, n, i)
    requires w == Width(CallDedicatedRet, alignment) && rel == -w * n - 5
    ensures var retAt := SlotAt(CallDedicatedRet, alignment, i);
            && w >= 5 && -0x8000_0000 <= rel < 0x8000_0000 && retAt == at + 5 + rel
            && Holds(code, at, [CALL] + Le32(rel) + Fill(NOP, w - 5)) && Holds(code, retAt, [RET])
            && CallSlot(CallDedicatedRet, alignment, n, i + 1) == at + w
            && SlotLog(CallDedicatedRet, alignment, n, i) == [Branch(CALL, at, retAt), Branch(RET, retAt, at + 5)]
  {
    SlotBytes(code, CallDedicatedRet, alignment, n, i);
    SlotBytes(code, CallDedicatedRet, alignment, n, n + i);
    DedicatedSize(alignment, n);
    DedicatedDisp(alignment, n, i);
    HoldsParts(code, SlotAt(CallDedicatedRet, alignment, i), [RET], Fill(NOP, w - 1));
  }

  /** Call i of call_dedicated_ret reaches ret slot i, comes back, and slides to the next call. */
  lemma DedicatedSlotRun(code: seq<byte>, alignment: int, n: nat, i: nat, c: Cpu)
    requires Loaded(code, CallDedicatedRet, alignment, n) && i < n
    requires c.ip == CallSlot(CallDedicatedRet, alignment, n, i)
    ensures Reaches(code, c, c.(ip := CallSlot(CallDedicatedRet, alignment, n, i + 1),
                                log := c.log + SlotLog(CallDedicatedRet, alignment, n, i)))
  {
    var w := Width(CallDedicatedRet, alignment);
    DedicatedSlotIs(code, alignment, n, i, c.ip, w, -w * n - 5);
    CallRetSled(code, c, -w * n - 5, SlotAt(CallDedicatedRet, alignment, i), w);
  }

  /** Every call of call_shared_ret reaches the one ret at offset 62. */
  lemma SharedSlotRun(code: seq<byte>, alignment: int, n: nat, i: nat, c: Cpu)
    requires Loaded(code, CallSharedRet, alignment, n) && i < n
    requires c.ip == SlotAt(CallSharedRet, alignment, i)
    ensures Reaches(code, c, c.(ip := SlotAt(CallSharedRet, alignment, i + 1),
                                log := c.log + SlotLog(CallSharedRet, alignment, n, i)))
  {
    var kind := CallSharedRet;
    SlotBytes(code, kind, alignment, n, i);
    HoldsParts(code, 0, Fill(NOP, 62) + [RET], [NOP]);
    HoldsParts(code, 0, Fill(NOP, 62), [RET]);
    CallRetSled(code, c, 62 - (c.ip + 5), 62, Width(kind, alignment));
  }

  /** A call to the add rsp, 8 at the end of its own slot: the pushed address is dropped again. */
  lemma CallAddRsp(code: seq<byte>, c: Cpu, w: int)
    requires 9 <= w < 0x8000_0000
    requires Holds(code, c.ip, [CALL] + Le32(w - 9)) && Holds(code, c.ip + (w - 4), ADD_RSP_8)
    ensures Reaches(code, c, c.(ip := c.ip + w, zf := false, log := c.log + [Branch(CALL, c.ip, c.ip + w - 4)]))
  {
    CallStep(code, c, w - 9);
    var c1 := Jump(c, CALL, c.ip + (w - 4)).(stack := c.stack + [c.ip + 5]);
    AddRspStep(code, c1, c.stack, c.ip + 5);
    ReachesTrans(code, c, c1, c1.(ip := c.ip + w, stack := c.stack, zf := false));
  }

  lemma ForwardSlotRun(code: seq<byte>, alignment: int, n: nat, i: nat, c: Cpu)
    requires Loaded(code, ForwardCallWithoutRet, alignment, n) && i < n
    requires c.ip == SlotAt(ForwardCallWithoutRet, alignment, i)
    ensures Reaches(code, c, c.(ip := SlotAt(ForwardCallWithoutRet, alignment, i + 1), zf := false,
                                log := c.log + SlotLog(ForwardCallWithoutRet, alignment, n, i)))
  {
    var w := Width(ForwardCallWithoutRet, alignment);
    SlotBytes(code, ForwardCallWithoutRet, alignment, n, i);
    HoldsParts(code, c.ip, [CALL] + Le32(w - 9) + Fill(NOP, w - 9), ADD_RSP_8);
    HoldsParts(code, c.ip, [CALL] + Le32(w - 9), Fill(NOP, w - 9));
    CallAddRsp(code, c, w);
  }

  /** Landing d bytes into n nops. */
  lemma IntoSled(code: seq<byte>, at: int, n: int, c: Cpu, d: int)
    requires 0 <= d <= n && Holds(code, at, Fill(NOP, n)) && c.ip == at + d
    ensures Reaches(code, c, c.(ip := at + n))
  {
    assert Fill(NOP, n) == Fill(NOP, d) + Fill(NOP, n - d);
    HoldsParts(code, at, Fill(NOP, d), Fill(NOP, n - d));
    Sled(code, c, n - d);
  }

  /** A two-byte branch at the start of a slot that lands d bytes into the nops behind it. */
  lemma ShortLanding(code: seq<byte>, c: Cpu, next: Cpu, d: int, w: int)
    requires 0 <= d <= w - 2
    requires Holds(code, c.ip + 2, Fill(NOP, w - 2))
    requires Reaches(code, c, next) && next.ip == c.ip + 2 + d
    ensures Reaches(code, c, next.(ip := c.ip + w))
  {
    IntoSled(code, c.ip + 2, w - 2, next, d);
    ReachesTrans(code, c, next, next.(ip := c.ip + w));
  }

  predicate Short(kind: Kind) {
    NeedsZero(kind) || kind.JmpForward?
  }

  function ShortOp(kind: Kind): byte {
    if kind.JeAlwaysTaken? then JE8 else if IsJne(kind) then JNE8 else JMP8
  }

  lemma ShortBytes(code: seq<byte>, kind: Kind, alignment: int, n: nat, i: nat)
    requires Loaded(code, kind, alignment, n) && i < n && Short(kind)
    ensures Holds(code, SlotAt(kind, alignment, i), [ShortOp(kind), Operand(kind, alignment)])
    ensures Holds(code, SlotAt(kind, alignment, i) + 2, Fill(NOP, Width(kind, alignment) - 2))
  {
    SlotBytes(code, kind, alignment, n, i);
    HoldsParts(code, SlotAt(kind, alignment, i), [ShortOp(kind), Operand(kind, alignment)],
               Fill(NOP, Width(kind, alignment) - 2));
  }

  predicate IsTaken(kind: Kind) {
    kind.JmpForward? || kind.JeAlwaysTaken? || kind.JmpWeaved?
  }

  /** The branch of a slot lands behind it, in the nops of the slot or at its end. */
  predicate Lands(kind: Kind, alignment: int) {
    var d := ShortDisp(kind, alignment);
    0 <= d <= Width(kind, alignment) - 2 && (kind.JmpWeaved? && alignment >= 4 ==> d >= 2)
  }

  lemma OperandIsCut(kind: Kind, alignment: int)
    requires IsTaken(kind)
    ensures Operand(kind, alignment) == if kind.JmpForward? && alignment < 2 then 0 else (alignment - 2) % 0x100
  {
    assert (0xfe + alignment) % 0x100 == (alignment - 2) % 0x100;
  }

  /** The legal alignments are those for which the cut displacement lands there. */
  lemma LegalLands(kind: Kind, alignment: int)
    requires IsTaken(kind)
    ensures Legal(kind, alignment) <==> Lands(kind, alignment)
  {
    OperandIsCut(kind, alignment);
  }

  /** je (with the zero flag set) and jmp land in the nops of their own slot. */
  lemma TakenRun(code: seq<byte>, op: byte, operand: byte, w: int, c: Cpu)
    requires op == JMP8 || (op == JE8 && c.zf)
    requires 0 <= Signed8(operand) <= w - 2
    requires Holds(code, c.ip, [op, operand]) && Holds(code, c.ip + 2, Fill(NOP, w - 2))
    ensures Reaches(code, c, c.(ip := c.ip + w, log := c.log + [Branch(op, c.ip, c.ip + 2 + Signed8(operand))]))
  {
    if op == JMP8 {
      Jmp8Step(code, c, operand);
    } else {
      JeTakenStep(code, c, operand);
    }
    ShortLanding(code, c, Jump(c, op, c.ip + 2 + Signed8(operand)), Signed8(operand), w);
  }

  /** jne: not taken, whatever its operand. */
  lemma NotTakenRun(code: seq<byte>, kind: Kind, alignment: int, n: nat, i: nat, c: Cpu)
    requires Loaded(code, kind, alignment, n) && i < n && IsJne(kind) && c.zf
    requires c.ip == SlotAt(kind, alignment, i)
    ensures Reaches(code, c, c.(ip := SlotAt(kind, alignment, i + 1), log := c.log + SlotLog(kind, alignment, n, i)))
  {
    ShortBytes(code, kind, alignment, n, i);
    JneNotTakenStep(code, c, Operand(kind, alignment));
    ShortLanding(code, c, Jump(c, JNE8, c.ip + 2), 0, Width(kind, alignment));
  }

  lemma WeavedBytes(code: seq<byte>, alignment: int, n: nat, i: nat)
    requires Loaded(code, JmpWeaved, alignment, n) && i < n
    ensures var at, jmp := SlotAt(JmpWeaved, alignment, i), [JMP8, Operand(JmpWeaved, alignment)];
            Holds(code, at, jmp)
            && (alignment >= 4 ==> Holds(code, at + 2, jmp) && Holds(code, at + 4, Fill(NOP, alignment - 4)))
            && (alignment < 4 ==> Holds(code, at + 2, Fill(NOP, Width(JmpWeaved, alignment) - 2)))
  {
    SlotBytes(code, JmpWeaved, alignment, n, i);
    var at, w := SlotAt(JmpWeaved, alignment, i), Width(JmpWeaved, alignment);
    var jmp: seq<byte> := [JMP8, Operand(JmpWeaved, alignment)];
    if alignment >= 4 {
      HoldsParts(code, at, jmp + jmp, Fill(NOP, w - 4));
      HoldsParts(code, at, jmp, jmp);
    } else {
      HoldsParts(code, at, jmp, Fill(NOP, w - 2));
    }
  }

  lemma WeavedSlotRun(code: seq<byte>, alignment: int, n: nat, i: nat, c: Cpu)
    requires Loaded(code, JmpWeaved, alignment, n) && i < n && Legal(JmpWeaved, alignment)
    requires c.ip == SlotAt(JmpWeaved, alignment, i)
    ensures Reaches(code, c, c.(ip := SlotAt(JmpWeaved, alignment, i + 1),
                                log := c.log + SlotLog(JmpWeaved, alignment, n, i)))
  {
    LegalLands(JmpWeaved, alignment);
    SlotBytes(code, JmpWeaved, alignment, n, i);
    WeavedBytes(code, alignment, n, i);
    Jmp8Step(code, c, Operand(JmpWeaved, alignment));
    var d, w := ShortDisp(JmpWeaved, alignment), Width(JmpWeaved, alignment);
    var next := Jump(c, JMP8, c.ip + 2 + d);
    if alignment >= 4 {
      IntoSled(code, c.ip + 4, w - 4, next, d - 2);
      ReachesTrans(code, c, next, next.(ip := c.ip + w));
    } else {
      ShortLanding(code, c, next, d, w);
    }
  }

  lemma TakenSlotRun(code: seq<byte>, kind: Kind, alignment: int, n: nat, i: nat, c: Cpu)
    requires Loaded(code, kind, alignment, n) && i < n && Legal(kind, alignment) && Short(kind) && !IsJne(kind)
    requires c.ip == SlotAt(kind, alignment, i) && (NeedsZero(kind) ==> c.zf)
    ensures Reaches(code, c, c.(ip := SlotAt(kind, alignment, i + 1), log := c.log + SlotLog(kind, alignment, n, i)))
  {
    LegalLands(kind, alignment);
    ShortBytes(code, kind, alignment, n, i);
    TakenRun(code, ShortOp(kind), Operand(kind, alignment), Width(kind, alignment), c);
    assert SlotAt(kind, alignment, i + 1) == c.ip + Width(kind, alignment);
  }

  lemma ShortRun(code: seq<byte>, kind: Kind, alignment: int, n: nat, i: nat, c: Cpu)
    requires Loaded(code, kind, alignment, n) && i < n && Legal(kind, alignment) && Short(kind)
    requires c.ip == SlotAt(kind, alignment, i) && (NeedsZero(kind) ==> c.zf)
    ensures Reaches(code, c, c.(ip := SlotAt(kind, alignment, i + 1), log := c.log + SlotLog(kind, alignment, n, i)))
  {
    if IsJne(kind) {
      NotTakenRun(code, kind, alignment, n, i, c);
    } else {
      TakenSlotRun(code, kind, alignment, n, i, c);
    }
  }

  /** A slot of any gadget, entered at its measured branch. */
  lemma SlotRun(code: seq<byte>, kind: Kind, alignment: int, n: nat, i: nat, c: Cpu) returns (c': Cpu)
    requires Loaded(code, kind, alignment, n) && i < n && Legal(kind, alignment)
    requires c.ip == CallSlot(kind, alignment, n, i) && (NeedsZero(kind) ==> c.zf)
    ensures Reaches(code, c, c') && c'.ip == CallSlot(kind, alignment, n, i + 1) && c'.stack == c.stack
    ensures c'.log == c.log + SlotLog(kind, alignment, n, i)
    ensures NeedsZero(kind) ==> c'.zf
  {
    c' := c.(ip := CallSlot(kind, alignment, n, i + 1), log := c.log + SlotLog(kind, alignment, n, i));
    match kind {
      case CallDedicatedRet => DedicatedSlotRun(code, alignment, n, i, c);
      case CallSharedRet => SharedSlotRun(code, alignment, n, i, c);
      case ForwardCallWithoutRet =>
        ForwardSlotRun(code, alignment, n, i, c);
        c' := c'.(zf := false);
      case JmpWeaved => WeavedSlotRun(code, alignment, n, i, c);
      case _ => ShortRun(code, kind, alignment, n, i, c);
    }
  }

  // ----- whole runs

  lemma {:induction false} BodyRun(code: seq<byte>, kind: Kind, alignment: int, n: nat, m: nat, c: Cpu)
    returns (c': Cpu)
    requires Loaded(code, kind, alignment, n) && m <= n && (m == 0 || Legal(kind, alignment))
    requires c.ip == CallSlot(kind, alignment, n, 0) && (NeedsZero(kind) ==> c.zf)
    ensures Reaches(code, c, c') && c'.ip == CallSlot(kind, alignment, n, m) && c'.stack == c.stack
    ensures c'.log == c.log + BodyLog(kind, alignment, n, m)
    ensures NeedsZero(kind) ==> c'.zf
    decreases m
  {
    if m == 0 {
      c' := c;
    } else {
      var b := BodyRun(code, kind, alignment, n, m - 1, c);
      c' := SlotRun(code, kind, alignment, n, m - 1, b);
      ReachesTrans(code, c, b, c');
      Associative(c.log, BodyLog(kind, alignment, n, m - 1), SlotLog(kind, alignment, n, m - 1));
    }
  }

  /** mov ecx, 1; dec ecx leaves the zero flag set. */
  lemma MovDecRun(code: seq<byte>, c: Cpu)
    requires c.ip == 57 && Holds(code, 57, MOV_DEC)
    ensures Reaches(code, c, c.(ip := 64, ecx := 0, zf := true))
  {
    ByteAt(code, 57, MOV_DEC, 0);
    ByteAt(code, 57, MOV_DEC, 1);
    ByteAt(code, 57, MOV_DEC, 2);
    ByteAt(code, 57, MOV_DEC, 3);
    ByteAt(code, 57, MOV_DEC, 4);
    ByteAt(code, 57, MOV_DEC, 5);
    ByteAt(code, 57, MOV_DEC, 6);
    var c1 := c.(ip := 62, ecx := 1);
    var c2 := c1.(ip := 64, ecx := 0, zf := true);
    assert Step(code, c) == Some(c1);
    ReachesStep(code, c, c1);
    ReachesStep(code, c1, c2);
    ReachesTrans(code, c, c1, c2);
  }

  /** The jmp at the start of call_dedicated_ret leaps over the rets to the first call. */
  lemma DedicatedEntry(code: seq<byte>, alignment: int, n: nat, c: Cpu)
    requires Loaded(code, CallDedicatedRet, alignment, n) && c.ip == 59
    ensures Reaches(code, c, Jump(c, JMP32, CallSlot(CallDedicatedRet, alignment, n, 0)))
  {
    var w := Width(CallDedicatedRet, alignment);
    HoldsParts(code, 0, Fill(NOP, 58) + [RET], [JMP32] + Le32(w * n));
    DedicatedSize(alignment, n);
    JmpStep(code, c, w * n);
  }

  lemma ConditionalEntry(code: seq<byte>, kind: Kind, alignment: int, n: nat, c: Cpu)
    requires Loaded(code, kind, alignment, n) && (IsJne(kind) || kind.JeAlwaysTaken?) && c.ip == 57
    ensures Reaches(code, c, c.(ip := 64, ecx := 0, zf := true))
  {
    HoldsParts(code, 0, Fill(NOP, 56) + [RET], MOV_DEC);
    MovDecRun(code, c);
  }

  /** From ptr_fn to the first measured branch. */
  lemma EntryRun(code: seq<byte>, kind: Kind, alignment: int, n: nat, c: Cpu) returns (c': Cpu)
    requires Loaded(code, kind, alignment, n) && c.ip == FnAt(kind)
    ensures Reaches(code, c, c') && c'.ip == CallSlot(kind, alignment, n, 0) && c'.stack == c.stack
    ensures c'.log == c.log + EntryLog(kind, alignment, n)
    ensures NeedsZero(kind) ==> c'.zf
  {
    if kind.CallDedicatedRet? {
      DedicatedEntry(code, alignment, n, c);
      c' := Jump(c, JMP32, CallSlot(kind, alignment, n, 0));
    } else if IsJne(kind) || kind.JeAlwaysTaken? {
      ConditionalEntry(code, kind, alignment, n, c);
      c' := c.(ip := 64, ecx := 0, zf := true);
    } else {
      c' := c;
    }
  }

  /**
   Running any gadget from ptr_fn executes exactly the branches of FullLog, one slot after
   the other, and arrives at ptr_ret with the stack it started with.
   */
  lemma GadgetRun(code: seq<byte>, kind: Kind, alignment: int, n: nat, c: Cpu)
    requires Loaded(code, kind, alignment, n) && (n == 0 || Legal(kind, alignment)) && c.ip == FnAt(kind)
    ensures Arrives(code, c, RetAt(kind, alignment, n), FullLog(kind, alignment, n))
  {
    var a := EntryRun(code, kind, alignment, n, c);
    var b := BodyRun(code, kind, alignment, n, n, a);
    ReachesTrans(code, c, a, b);
    Associative(c.log, EntryLog(kind, alignment, n), BodyLog(kind, alignment, n, n));
  }

  /** blob_exec: a call of ptr_fn comes back to its caller. */
  lemma BlobExecReturns(code: seq<byte>, kind: Kind, alignment: int, n: nat, c: Cpu, caller: int, below: seq<int>)
    requires Loaded(code, kind, alignment, n) && (n == 0 || Legal(kind, alignment))
    requires c.ip == FnAt(kind) && c.stack == below + [caller]
    ensures exists c' :: Reaches(code, c, c') && c'.ip == caller && c'.stack == below
                         && c'.log
                            == c.log + FullLog(kind, alignment, n) + [Branch(RET, RetAt(kind, alignment, n), caller)]
  {
    GadgetRun(code, kind, alignment, n, c);
    var b :| Reaches(code, c, b) && b.ip == RetAt(kind, alignment, n) && b.stack == c.stack
             && b.log == c.log + FullLog(kind, alignment, n);
    var c' := TailReturns(code, kind, alignment, n, b, caller, below);
    ReachesTrans(code, c, b, c');
  }

  lemma TailReturns(code: seq<byte>, kind: Kind, alignment: int, n: nat, b: Cpu, caller: int, below: seq<int>)
    returns (c': Cpu)
    requires Loaded(code, kind, alignment, n) && b.ip == RetAt(kind, alignment, n) && b.stack == below + [caller]
    ensures Reaches(code, b, c') && c' == Jump(b, RET, caller).(stack := below)
  {
    assert Tail(kind) == [RET] + Tail(kind)[1..];
    HoldsParts(code, b.ip, [RET], Tail(kind)[1..]);
    RetStep(code, b, caller, below);
    c' := Jump(b, RET, caller).(stack := below);
  }

  /** The ret in front of the code of a gadget. */
  function HeadRetAt(kind: Kind): int {
    if kind.CallDedicatedRet? then 58 else if NeedsZero(kind) then 56 else if kind.CallSharedRet? then 62 else 63
  }

  /** blob_warm_itlb: entering at the start of the blob or at ptr_ret executes one ret, and comes back. */
  lemma WarmItlbReturns(code: seq<byte>, kind: Kind, alignment: int, n: nat, c: Cpu, caller: int, below: seq<int>)
    requires Loaded(code, kind, alignment, n) && (c.ip == 0 || c.ip == RetAt(kind, alignment, n))
    requires c.stack == below + [caller]
    ensures var at := if c.ip == 0 then HeadRetAt(kind) else c.ip;
            Reaches(code, c, c.(ip := caller, stack := below, log := c.log + [Branch(RET, at, caller)]))
  {
    if c.ip == RetAt(kind, alignment, n) {
      var c' := TailReturns(code, kind, alignment, n, c, caller, below);
    } else {
      var nops, head := HeadRetAt(kind), Head(kind, alignment, n);
      assert head == Fill(NOP, nops) + [RET] + head[nops + 1..];
      HoldsParts(code, 0, Fill(NOP, nops) + [RET], head[nops + 1..]);
      HoldsParts(code, 0, Fill(NOP, nops), [RET]);
      Sled(code, c, nops);
      var c1 := c.(ip := nops);
      RetStep(code, c1, caller, below);
      ReachesTrans(code, c, c1, Jump(c1, RET, caller).(stack := below));
    }
  }

  // ----- what the log says

  /** How many branches one slot executes. */
  function PerSlot(kind: Kind): nat {
    if kind.CallDedicatedRet? || kind.CallSharedRet? then 2 else 1
  }

  lemma {:induction false} BodyLogLength(kind: Kind, alignment: int, n: nat, m: nat)
    ensures |BodyLog(kind, alignment, n, m)| == PerSlot(kind) * m
  {
    if m > 0 {
      BodyLogLength(kind, alignment, n, m - 1);
    }
  }

  /** The log has one group per slot, in slot order. */
  lemma {:induction false} BodyLogAt(kind: Kind, alignment: int, n: nat, m: nat, i: nat, e: nat)
    requires i < m && e < PerSlot(kind)
    ensures |BodyLog(kind, alignment, n, m)| == PerSlot(kind) * m
    ensures PerSlot(kind) * i + e < PerSlot(kind) * m
    ensures BodyLog(kind, alignment, n, m)[PerSlot(kind) * i + e] == SlotLog(kind, alignment, n, i)[e]
    decreases m
  {
    BodyLogLength(kind, alignment, n, m - 1);
    BodyLogLength(kind, alignment, n, m);
    if i < m - 1 {
      BodyLogAt(kind, alignment, n, m - 1, i, e);
    }
  }

  /** Entries 2i and 2i + 1 of the call_dedicated_ret log are call i and the ret it uses. */
  lemma DedicatedPairAt(alignment: int, n: nat, i: nat)
    requires i < n
    ensures var log := BodyLog(CallDedicatedRet, alignment, n, n);
            var call, ret := CallSlot(CallDedicatedRet, alignment, n, i), SlotAt(CallDedicatedRet, alignment, i);
            |log| == 2 * n && log[2 * i] == Branch(CALL, call, ret) && log[2 * i + 1] == Branch(RET, ret, call + 5)
  {
    BodyLogAt(CallDedicatedRet, alignment, n, n, i, 0);
    BodyLogAt(CallDedicatedRet, alignment, n, n, i, 1);
  }

  /** Distinct calls of call_dedicated_ret sit at distinct addresses and use distinct rets. */
  lemma DedicatedPairsAreDistinct(alignment: int, n: nat, i: nat, j: nat)
    requires i < j < n
    ensures var log := BodyLog(CallDedicatedRet, alignment, n, n);
            |log| == 2 * n && log[2 * i].at < log[2 * j].at && log[2 * i + 1].at < log[2 * j + 1].at
  {
    DedicatedPairAt(alignment, n, i);
    DedicatedPairAt(alignment, n, j);
    SlotsApart(CallDedicatedRet, alignment, i, j);
    SlotsApart(CallDedicatedRet, alignment, n + i, n + j);
  }

  // ----- which of the measured branches the iTLB warm-up executes

  predicate Executes(log: seq<Branch>, at: int) {
    exists j :: 0 <= j < |log| && log[j].at == at
  }

  /** Measured branches lie in the slots, but for the shared ret. */
  lemma {:induction false} MeasuredAt(kind: Kind, alignment: int, n: nat, m: nat, at: int)
    requires m <= n && Executes(BodyLog(kind, alignment, n, m), at)
    ensures 64 <= at < RetAt(kind, alignment, n) || (kind.CallSharedRet? && at == 62)
    decreases m
  {
    if m > 0 {
      var log := BodyLog(kind, alignment, n, m - 1);
      if Executes(log, at) {
        MeasuredAt(kind, alignment, n, m - 1, at);
      } else {
        SlotsApart(kind, alignment, m - 1, SlotCount(kind, n));
        if kind.CallDedicatedRet? { SlotsApart(kind, alignment, n + m - 1, SlotCount(kind, n)); }
      }
    }
  }

  /** Neither the ret in front of the code nor, except for call_shared_ret, the one behind it is in the log. */
  lemma WarmRetIsNotMeasured(kind: Kind, alignment: int, n: nat, at: int)
    requires at == HeadRetAt(kind) || at == RetAt(kind, alignment, n)
    requires Executes(FullLog(kind, alignment, n), at)
    ensures at == HeadRetAt(kind) && kind.CallSharedRet? && n > 0
  {
    var log, entries := FullLog(kind, alignment, n), |EntryLog(kind, alignment, n)|;
    assert BodyLog(kind, alignment, n, n) == log[entries..];
    var j :| 0 <= j < |log| && log[j].at == at;
    assert j >= entries;
    assert BodyLog(kind, alignment, n, n)[j - entries].at == at;
    MeasuredAt(kind, alignment, n, n, at);
  }

  lemma SharedRetIsMeasured(alignment: int, n: nat)
    requires n > 0
    ensures Executes(FullLog(CallSharedRet, alignment, n), HeadRetAt(CallSharedRet))
  {
    BodyLogAt(CallSharedRet, alignment, n, n, 0, 1);
    assert FullLog(CallSharedRet, alignment, n)[1].at == 62;
  }

  /** The ret executed in front of the code is a measured one for call_shared_ret only; the one behind it never is. */
  lemma WarmItlbMeasuredIff(kind: Kind, alignment: int, n: nat, entry: int)
    requires entry == 0 || entry == RetAt(kind, alignment, n)
    ensures var at := if entry == 0 then HeadRetAt(kind) else entry;
            Executes(FullLog(kind, alignment, n), at) <==> entry == 0 && kind.CallSharedRet? && n > 0
  {
    var at := if entry == 0 then HeadRetAt(kind) else entry;
    if Executes(FullLog(kind, alignment, n), at) { WarmRetIsNotMeasured(kind, alignment, n, at); }
    if entry == 0 && kind.CallSharedRet? && n > 0 { SharedRetIsMeasured(alignment, n); }
  }
}
