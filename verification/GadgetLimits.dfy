/**
 Where a displacement cut to eight bits stops a branch gadget from working: the exact
 conditions on the alignment, for the measured runs and for the warm-up of jmp_weaved.
 */
module GadgetLimits {
  import opened Basics
  import opened X86
  import opened Gadget
  import opened GadgetRuns

  ghost predicate Outside(code: seq<byte>, ip: int) {
    !(0 <= ip < |code|)
  }

  // ----- the code up to the first branch and just behind it

  ghost predicate HeadBytes(code: seq<byte>, kind: Kind) {
    if kind.JeAlwaysTaken? then
      && |code| > 64 && code[56] == RET && Holds(code, 57, MOV_DEC)
      && forall i :: 0 <= i < 56 ==> code[i] == NOP
    else
      |code| > 64 && code[63] == RET && forall i :: 0 <= i < 63 ==> code[i] == NOP
  }

  lemma HeadIsLoaded(code: seq<byte>, kind: Kind, alignment: int, n: nat)
    requires Loaded(code, kind, alignment, n) && IsTaken(kind)
    ensures HeadBytes(code, kind)
  {
    var head := Head(kind, alignment, n);
    var nops := HeadRetAt(kind);
    forall i | 0 <= i <= nops ensures code[i] == head[i] { ByteAt(code, 0, head, i); }
    if kind.JeAlwaysTaken? { HoldsParts(code, 0, Fill(NOP, 56) + [RET], MOV_DEC); }
    ByteAt(code, RetAt(kind, alignment, n), Tail(kind), 0);
  }

  /** The first branch, and the byte behind it. */
  ghost predicate FirstBytes(code: seq<byte>, kind: Kind, alignment: int) {
    && |code| > 66 && code[64] == ShortOp(kind) && code[65] == Operand(kind, alignment)
    && code[66] in {NOP, JMP8, JE8, RET}
    && (kind.JmpWeaved? && alignment >= 4 ==> |code| > 67 && code[66] == JMP8 && code[67] == Operand(kind, alignment))
  }

  /** The byte right behind a slot of two bytes: the next slot, or the closing ret. */
  lemma NextByte(code: seq<byte>, kind: Kind, alignment: int, n: nat)
    requires Loaded(code, kind, alignment, n) && IsTaken(kind) && n > 0
    ensures var next := SlotAt(kind, alignment, 1);
            next < |code| && code[next] == if n > 1 then ShortOp(kind) else RET
  {
    if n > 1 {
      FirstTwo(code, kind, alignment, n, 1);
    } else {
      ByteAt(code, RetAt(kind, alignment, n), Tail(kind), 0);
    }
  }

  lemma FirstTwo(code: seq<byte>, kind: Kind, alignment: int, n: nat, i: nat)
    requires Loaded(code, kind, alignment, n) && IsTaken(kind) && i < n
    ensures Holds(code, SlotAt(kind, alignment, i), [ShortOp(kind), Operand(kind, alignment)])
    ensures var at := SlotAt(kind, alignment, i);
            at + 1 < |code| && code[at] == ShortOp(kind) && code[at + 1] == Operand(kind, alignment)
  {
    var bs: seq<byte> := [ShortOp(kind), Operand(kind, alignment)];
    if kind.JmpWeaved? { WeavedBytes(code, alignment, n, i); } else { ShortBytes(code, kind, alignment, n, i); }
    ByteAt(code, SlotAt(kind, alignment, i), bs, 0);
    ByteAt(code, SlotAt(kind, alignment, i), bs, 1);
  }

  lemma FirstIsLoaded(code: seq<byte>, kind: Kind, alignment: int, n: nat)
    requires Loaded(code, kind, alignment, n) && IsTaken(kind) && n > 0
    ensures FirstBytes(code, kind, alignment)
  {
    FirstTwo(code, kind, alignment, n, 0);
    NextByte(code, kind, alignment, n);
    var w := Width(kind, alignment);
    assert SlotAt(kind, alignment, 1) == 64 + w;
    if kind.JmpWeaved? && alignment >= 4 {
      WeavedBytes(code, alignment, n, 0);
      ByteAt(code, 66, [JMP8, Operand(kind, alignment)], 0);
      ByteAt(code, 66, [JMP8, Operand(kind, alignment)], 1);
    } else if w > 2 {
      if kind.JmpWeaved? { WeavedBytes(code, alignment, n, 0); } else { ShortBytes(code, kind, alignment, n, 0); }
      ByteAt(code, 66, Fill(NOP, w - 2), 0);
    }
  }

  // ----- a first branch that does not land in its slot

  /** After the first branch: in front of the first slot, past it, or inside the branches at its start. */
  ghost predicate Astray(code: seq<byte>, kind: Kind, alignment: int, ip: int) {
    || Outside(code, ip)
    || ip <= 64
    || ip > SlotAt(kind, alignment, 1)
    || (ip == 65 && code[65] == 0xff)
    || (kind.JmpWeaved? && alignment >= 4 && (ip == 66 || (ip == 67 && code[67] == 1)))
  }

  /** Before the first branch. */
  predicate AtEntry(kind: Kind, c: Cpu) {
    if kind.JeAlwaysTaken? then c.ip == 57 || (c.ip == 62 && c.ecx == 1) || (c.ip == 64 && c.zf)
    else c.ip == 64
  }

  /** Either the second branch was not that of the second slot, or it has yet to come and cannot be. */
  ghost predicate OffTrack(code: seq<byte>, kind: Kind, alignment: int, len: nat, c: Cpu) {
    || (|c.log| == len && AtEntry(kind, c))
    || (|c.log| == len + 1 && Astray(code, kind, alignment, c.ip))
    || (|c.log| >= len + 2 && c.log[len + 1].at != SlotAt(kind, alignment, 1))
  }

  lemma MovDecBytes(code: seq<byte>)
    requires Holds(code, 57, MOV_DEC)
    ensures code[57] == 0xb9 && code[58] == 1 && code[59] == code[60] == code[61] == 0 && code[62] == 0xff
            && code[63] == 0xc9
  {
    ByteAt(code, 57, MOV_DEC, 0);
    ByteAt(code, 57, MOV_DEC, 1);
    ByteAt(code, 57, MOV_DEC, 2);
    ByteAt(code, 57, MOV_DEC, 3);
    ByteAt(code, 57, MOV_DEC, 4);
    ByteAt(code, 57, MOV_DEC, 5);
    ByteAt(code, 57, MOV_DEC, 6);
  }

  lemma EntryStep(code: seq<byte>, kind: Kind, alignment: int, c: Cpu)
    requires HeadBytes(code, kind) && FirstBytes(code, kind, alignment) && IsTaken(kind) && !Lands(kind, alignment)
    requires AtEntry(kind, c) && Step(code, c).Some?
    ensures var next := Step(code, c).value;
            || (next.log == c.log && AtEntry(kind, next))
            || (|next.log| == |c.log| + 1 && Astray(code, kind, alignment, next.ip))
  {
    if c.ip == 64 {
      assert SlotAt(kind, alignment, 1) == 64 + Width(kind, alignment);
      assert Step(code, c).value.ip == 66 + Signed8(code[65]);
    } else {
      MovDecBytes(code);
    }
  }

  /** Without a branch control stays astray; a branch taken there is not that of the second slot. */
  lemma AstrayStep(code: seq<byte>, kind: Kind, alignment: int, c: Cpu)
    requires HeadBytes(code, kind) && FirstBytes(code, kind, alignment) && IsTaken(kind)
    requires Astray(code, kind, alignment, c.ip) && Step(code, c).Some?
    ensures var next := Step(code, c).value;
            if next.log == c.log then Astray(code, kind, alignment, next.ip) else c.ip != SlotAt(kind, alignment, 1)
  {
    StepLog(code, c);
    assert SlotAt(kind, alignment, 1) == 64 + Width(kind, alignment);
    if c.ip <= 64 && kind.JeAlwaysTaken? {
      MovDecBytes(code);
    }
  }

  lemma OffTrackForever(code: seq<byte>, kind: Kind, alignment: int, len: nat, c: Cpu, c': Cpu)
    requires HeadBytes(code, kind) && FirstBytes(code, kind, alignment) && IsTaken(kind) && !Lands(kind, alignment)
    requires OffTrack(code, kind, alignment, len, c) && Reaches(code, c, c')
    ensures OffTrack(code, kind, alignment, len, c')
  {
    var prop := (x: Cpu) => OffTrack(code, kind, alignment, len, x);
    forall x | prop(x) && Step(code, x).Some? ensures prop(Step(code, x).value) {
      OffTrackStep(code, kind, alignment, len, x);
    }
    assert Closed(code, prop);
  }

  lemma OffTrackStep(code: seq<byte>, kind: Kind, alignment: int, len: nat, x: Cpu)
    requires HeadBytes(code, kind) && FirstBytes(code, kind, alignment) && IsTaken(kind) && !Lands(kind, alignment)
    requires OffTrack(code, kind, alignment, len, x) && Step(code, x).Some?
    ensures OffTrack(code, kind, alignment, len, Step(code, x).value)
  {
    StepLog(code, x);
    if |x.log| == len {
      EntryStep(code, kind, alignment, x);
    } else if |x.log| == len + 1 {
      AstrayStep(code, kind, alignment, x);
    } else {
      assert Step(code, x).value.log[len + 1] == x.log[len + 1];
    }
  }

  /**
   A gadget of taken branches executes exactly its n branches and arrives at ptr_ret if and
   only if it is empty or its alignment is legal, whatever follows it in the blob.
   */
  lemma TakenIff(code: seq<byte>, kind: Kind, alignment: int, n: nat, c: Cpu)
    requires Loaded(code, kind, alignment, n) && IsTaken(kind) && c.ip == FnAt(kind)
    ensures Arrives(code, c, RetAt(kind, alignment, n), FullLog(kind, alignment, n)) <==>
            n == 0 || Legal(kind, alignment)
  {
    if n == 0 || Legal(kind, alignment) {
      GadgetRun(code, kind, alignment, n, c);
    } else {
      LegalLands(kind, alignment);
      HeadIsLoaded(code, kind, alignment, n);
      FirstIsLoaded(code, kind, alignment, n);
      forall c' | Reaches(code, c, c') && c'.log == c.log + FullLog(kind, alignment, n)
        ensures c'.ip != RetAt(kind, alignment, n)
      {
        OffTrackForever(code, kind, alignment, |c.log|, c, c');
        OffTrackIsNotDone(code, kind, alignment, n, c.log, c');
      }
    }
  }

  lemma OffTrackIsNotDone(code: seq<byte>, kind: Kind, alignment: int, n: nat, before: seq<Branch>, c: Cpu)
    requires Loaded(code, kind, alignment, n) && IsTaken(kind) && n > 0
    requires OffTrack(code, kind, alignment, |before|, c) && c.log == before + FullLog(kind, alignment, n)
    ensures c.ip != RetAt(kind, alignment, n)
  {
    BodyLogLength(kind, alignment, n, n);
    assert |c.log| == |before| + n by { assert FullLog(kind, alignment, n) == BodyLog(kind, alignment, n, n); }
    if n > 1 {
      SecondEntry(kind, alignment, n, before);
    } else {
      NextByte(code, kind, alignment, n);
      assert SlotAt(kind, alignment, 1) == 64 + Width(kind, alignment);
    }
  }

  lemma SecondEntry(kind: Kind, alignment: int, n: nat, before: seq<Branch>)
    requires IsTaken(kind) && n > 1
    ensures var log := before + FullLog(kind, alignment, n);
            |log| > |before| + 1 && log[|before| + 1].at == SlotAt(kind, alignment, 1)
  {
    BodyLogAt(kind, alignment, n, n, 1, 0);
    assert FullLog(kind, alignment, n) == BodyLog(kind, alignment, n, n);
  }

  /** jmp works exactly for the alignments, raised to 2, whose displacement is not negative after the cut. */
  lemma JmpForwardIff(code: seq<byte>, alignment: int, n: nat, c: Cpu)
    requires Loaded(code, JmpForward, alignment, n) && c.ip == FnAt(JmpForward)
    ensures Arrives(code, c, RetAt(JmpForward, alignment, n), FullLog(JmpForward, alignment, n))
            <==> n == 0 || alignment < 2 || (alignment - 2) % 0x100 < 0x80
  {
    TakenIff(code, JmpForward, alignment, n, c);
  }

  /** je_always_taken does not raise the alignment: below 2 only a displacement that is cut to 0 works. */
  lemma JeAlwaysTakenIff(code: seq<byte>, alignment: int, n: nat, c: Cpu)
    requires Loaded(code, JeAlwaysTaken, alignment, n) && c.ip == FnAt(JeAlwaysTaken)
    ensures Arrives(code, c, RetAt(JeAlwaysTaken, alignment, n), FullLog(JeAlwaysTaken, alignment, n))
            <==> n == 0 || (alignment - 2) % 0x100 == 0 || (alignment >= 2 && (alignment - 2) % 0x100 < 0x80)
  {
    TakenIff(code, JeAlwaysTaken, alignment, n, c);
  }

  /** In jmp_weaved the cut displacement must also clear the second jump of the slot. */
  lemma JmpWeavedIff(code: seq<byte>, alignment: int, n: nat, c: Cpu)
    requires Loaded(code, JmpWeaved, alignment, n) && c.ip == FnAt(JmpWeaved)
    ensures Arrives(code, c, RetAt(JmpWeaved, alignment, n), FullLog(JmpWeaved, alignment, n))
            <==> || n == 0
                 || (alignment < 2 && (alignment - 2) % 0x100 == 0)
                 || 2 <= alignment <= 129
                 || (alignment > 129 && 2 <= (alignment - 2) % 0x100 < 0x80)
  {
    TakenIff(code, JmpWeaved, alignment, n, c);
  }

  // ----- jmp_weaved: the warm-up run, which enters two bytes in

  /** The branches of a warm-up run that goes from slot to slot. */
  function WarmLog(alignment: int, m: nat): seq<Branch> {
    if m == 0 then []
    else WarmLog(alignment, m - 1)
         + [Branch(JMP8, SlotAt(JmpWeaved, alignment, m - 1) + 2, SlotAt(JmpWeaved, alignment, m) + 2)]
  }

  lemma WarmSlotRun(code: seq<byte>, alignment: int, n: nat, i: nat, c: Cpu)
    requires Loaded(code, JmpWeaved, alignment, n) && i < n && 4 <= alignment <= 129
    requires c.ip == SlotAt(JmpWeaved, alignment, i) + 2
    ensures Reaches(code, c, Jump(c, JMP8, SlotAt(JmpWeaved, alignment, i + 1) + 2))
  {
    WeavedBytes(code, alignment, n, i);
    Jmp8Step(code, c, Operand(JmpWeaved, alignment));
  }

  lemma {:induction false} WarmRun(code: seq<byte>, alignment: int, n: nat, m: nat, c: Cpu)
    requires Loaded(code, JmpWeaved, alignment, n) && m <= n && 4 <= alignment <= 129 && c.ip == FnAt(JmpWeaved) + 2
    ensures Reaches(code, c, c.(ip := SlotAt(JmpWeaved, alignment, m) + 2, log := c.log + WarmLog(alignment, m)))
    decreases m
  {
    if m == 0 {
      assert c == c.(log := c.log + WarmLog(alignment, 0));
    } else {
      var b := c.(ip := SlotAt(JmpWeaved, alignment, m - 1) + 2, log := c.log + WarmLog(alignment, m - 1));
      WarmRun(code, alignment, n, m - 1, c);
      WarmSlotRun(code, alignment, n, m - 1, b);
      var b' := Jump(b, JMP8, SlotAt(JmpWeaved, alignment, m) + 2);
      ReachesTrans(code, c, b, b');
      assert b'.log == c.log + WarmLog(alignment, m);
    }
  }

  predicate TouchesSlot(log: seq<Branch>, alignment: int, n: nat) {
    exists j, i :: 0 <= j < |log| && 0 <= i < n && log[j].at == SlotAt(JmpWeaved, alignment, i)
  }

  lemma {:induction false} WarmLogAvoidsSlots(alignment: int, n: nat, m: nat)
    requires alignment >= 4 && m <= n
    ensures !TouchesSlot(WarmLog(alignment, m), alignment, n)
  {
    if m > 0 {
      WarmLogAvoidsSlots(alignment, n, m - 1);
      forall i | 0 <= i < n ensures SlotAt(JmpWeaved, alignment, m - 1) + 2 != SlotAt(JmpWeaved, alignment, i) {
        if i < m - 1 {
          SlotsApart(JmpWeaved, alignment, i, m - 1);
        } else if i > m - 1 {
          SlotsApart(JmpWeaved, alignment, m - 1, i);
        }
      }
    }
  }

  /** What the warm-up is for: it comes back to its caller without having executed a measured branch. */
  ghost predicate WarmUpReturns(code: seq<byte>, alignment: int, n: nat, c: Cpu, caller: int, below: seq<int>) {
    exists c' :: Reaches(code, c, c') && c'.ip == caller && c'.stack == below && !TouchesSlot(c'.log, alignment, n)
  }

  /** How it is meant to do so: by way of the second of the two closing rets. */
  ghost predicate WarmUpArrives(code: seq<byte>, alignment: int, n: nat, c: Cpu) {
    exists c' :: Reaches(code, c, c') && c'.ip == RetAt(JmpWeaved, alignment, n) + 2 && c'.stack == c.stack
                 && !TouchesSlot(c'.log, alignment, n)
  }

  /** The bytes around the first slot, beyond an alignment of 129. */
  ghost predicate WideSlot(code: seq<byte>, alignment: int, n: nat) {
    var next := 64 + alignment;
    && alignment > 129 && next + 3 < |code| && HeadBytes(code, JmpWeaved)
    && code[64] == JMP8 && code[66] == JMP8 && code[65] == code[67] == Operand(JmpWeaved, alignment)
    && (forall i :: 68 <= i < next ==> code[i] == NOP)
    && code[next] == if n > 1 then JMP8 else RET
  }

  lemma WideSlotBytes(code: seq<byte>, alignment: int, n: nat)
    requires Loaded(code, JmpWeaved, alignment, n) && n > 0 && alignment > 129
    ensures WideSlot(code, alignment, n) && SlotAt(JmpWeaved, alignment, 1) == 64 + alignment
  {
    HeadIsLoaded(code, JmpWeaved, alignment, n);
    FirstIsLoaded(code, JmpWeaved, alignment, n);
    NextByte(code, JmpWeaved, alignment, n);
    WeavedBytes(code, alignment, n, 0);
    SlotsApart(JmpWeaved, alignment, 0, n);
    if n > 1 { SlotsApart(JmpWeaved, alignment, 1, n); }
    assert SlotAt(JmpWeaved, alignment, 1) == 64 + alignment;
    forall i | 68 <= i < 64 + alignment ensures code[i] == NOP { ByteAt(code, 68, Fill(NOP, alignment - 4), i - 68); }
  }

  /** Executing a branch at the start of a slot touches it for good. */
  lemma TouchStays(code: seq<byte>, alignment: int, n: nat, c: Cpu)
    requires Step(code, c).Some?
    ensures TouchesSlot(c.log, alignment, n) ==> TouchesSlot(Step(code, c).value.log, alignment, n)
  {
    var next := Step(code, c).value;
    StepLog(code, c);
    if TouchesSlot(c.log, alignment, n) {
      var j, i :| 0 <= j < |c.log| && 0 <= i < n && c.log[j].at == SlotAt(JmpWeaved, alignment, i);
      assert next.log[j] == c.log[j];
    }
  }

  /** A short forward displacement slides into the next slot, or with one slot only to the first closing ret. */
  ghost predicate FallsShort(code: seq<byte>, alignment: int, n: nat, stack: seq<int>, c: Cpu) {
    || TouchesSlot(c.log, alignment, n)
    || (n == 1 && Outside(code, c.ip))
    || (c.stack == stack && (c.ip == 66 || 68 <= c.ip <= 64 + alignment))
  }

  lemma FallsShortStep(code: seq<byte>, alignment: int, n: nat, below: seq<int>, caller: int, c: Cpu)
    requires WideSlot(code, alignment, n) && n > 0 && Operand(JmpWeaved, alignment) < 0x80
    requires Outside(code, caller) && FallsShort(code, alignment, n, below + [caller], c) && Step(code, c).Some?
    ensures FallsShort(code, alignment, n, below + [caller], Step(code, c).value)
  {
    TouchStays(code, alignment, n, c);
    assert SlotAt(JmpWeaved, alignment, 1) == 64 + alignment;
    if !TouchesSlot(c.log, alignment, n) && n > 1 && c.ip == 64 + alignment {
      assert Step(code, c).value.log[|c.log|].at == SlotAt(JmpWeaved, alignment, 1);
    }
  }

  lemma FallsShortForever(code: seq<byte>, alignment: int, n: nat, below: seq<int>, caller: int, c: Cpu, c': Cpu)
    requires WideSlot(code, alignment, n) && n > 0 && Operand(JmpWeaved, alignment) < 0x80
    requires Outside(code, caller) && FallsShort(code, alignment, n, below + [caller], c) && Reaches(code, c, c')
    ensures FallsShort(code, alignment, n, below + [caller], c')
  {
    var prop := (x: Cpu) => FallsShort(code, alignment, n, below + [caller], x);
    forall x | prop(x) && Step(code, x).Some? ensures prop(Step(code, x).value) {
      FallsShortStep(code, alignment, n, below, caller, x);
    }
    assert Closed(code, prop);
  }

  /** A backward displacement ends in front of the code, in the middle of a jump, or at a ret. */
  ghost predicate GoesBack(code: seq<byte>, stack: seq<int>, c: Cpu) {
    || Outside(code, c.ip)
    || (c.stack == stack
        && (c.ip <= 64 || c.ip == 66 || (c.ip == 65 && code[65] in {0xff, 0xfd}) || (c.ip == 67 && code[67] == 0xff)))
  }

  lemma GoesBackForever(code: seq<byte>, alignment: int, n: nat, below: seq<int>, caller: int, c: Cpu, c': Cpu)
    requires WideSlot(code, alignment, n) && Operand(JmpWeaved, alignment) >= 0x80
    requires Outside(code, caller) && GoesBack(code, below + [caller], c) && Reaches(code, c, c')
    ensures GoesBack(code, below + [caller], c')
  {
    var prop := (x: Cpu) => GoesBack(code, below + [caller], x);
    forall x | prop(x) && Step(code, x).Some? ensures prop(Step(code, x).value) {
      GoesBackStep(code, alignment, n, below, caller, x);
    }
    assert Closed(code, prop);
  }

  lemma GoesBackStep(code: seq<byte>, alignment: int, n: nat, below: seq<int>, caller: int, c: Cpu)
    requires WideSlot(code, alignment, n) && Operand(JmpWeaved, alignment) >= 0x80
    requires Outside(code, caller) && GoesBack(code, below + [caller], c) && Step(code, c).Some?
    ensures GoesBack(code, below + [caller], Step(code, c).value)
  {
  }

  /** The operands for which a jump from 66 goes back into the nops in front of the code. */
  predicate IntoHead(operand: byte) {
    188 <= operand <= 251
  }

  /**
   Any other backward displacement never gets to a ret: control leaves the blob, sticks, or takes the
   measured branch.
   */
  ghost predicate NeverReturns(code: seq<byte>, alignment: int, n: nat, stack: seq<int>, c: Cpu) {
    || TouchesSlot(c.log, alignment, n)
    || (c.stack == stack
        && (Outside(code, c.ip) || c.ip == 64 || c.ip == 66 || (c.ip == 65 && code[65] == 0xfd)
            || (c.ip == 67 && code[67] == 0xff)))
  }

  lemma NeverReturnsStep(code: seq<byte>, alignment: int, n: nat, stack: seq<int>, c: Cpu)
    requires WideSlot(code, alignment, n) && n > 0
    requires Operand(JmpWeaved, alignment) >= 0x80 && !IntoHead(Operand(JmpWeaved, alignment))
    requires NeverReturns(code, alignment, n, stack, c) && Step(code, c).Some?
    ensures NeverReturns(code, alignment, n, stack, Step(code, c).value)
  {
    TouchStays(code, alignment, n, c);
    if !TouchesSlot(c.log, alignment, n) && c.ip == 64 {
      assert Step(code, c).value.log[|c.log|].at == SlotAt(JmpWeaved, alignment, 0);
    }
  }

  lemma NeverReturnsForever(code: seq<byte>, alignment: int, n: nat, stack: seq<int>, c: Cpu, c': Cpu)
    requires WideSlot(code, alignment, n) && n > 0
    requires Operand(JmpWeaved, alignment) >= 0x80 && !IntoHead(Operand(JmpWeaved, alignment))
    requires NeverReturns(code, alignment, n, stack, c) && Reaches(code, c, c')
    ensures NeverReturns(code, alignment, n, stack, c')
  {
    var prop := (x: Cpu) => NeverReturns(code, alignment, n, stack, x);
    forall x | prop(x) && Step(code, x).Some? ensures prop(Step(code, x).value) {
      NeverReturnsStep(code, alignment, n, stack, x);
    }
    assert Closed(code, prop);
  }

  /** One jump from ptr_fn + 2 into nops that end at a ret. */
  lemma JumpSlideReturn(code: seq<byte>, alignment: int, n: nat, c: Cpu, retAt: int, caller: int, below: seq<int>)
    requires WideSlot(code, alignment, n) && c.ip == 66 && c.log == [] && c.stack == below + [caller]
    requires 0 <= retAt < |code| && code[retAt] == RET && 0 <= 68 + ShortDisp(JmpWeaved, alignment) <= retAt
    requires forall i :: 68 + ShortDisp(JmpWeaved, alignment) <= i < retAt ==> code[i] == NOP
    requires forall i :: 0 <= i < n ==>
               SlotAt(JmpWeaved, alignment, i) != 66 && SlotAt(JmpWeaved, alignment, i) != retAt
    ensures WarmUpReturns(code, alignment, n, c, caller, below)
  {
    var to := 68 + ShortDisp(JmpWeaved, alignment);
    var a := Jump(c, JMP8, to);
    var b := a.(ip := retAt);
    var d := Jump(b, RET, caller).(stack := below);
    Jmp8Step(code, c, Operand(JmpWeaved, alignment));
    Sled(code, a, retAt - to);
    RetStep(code, b, caller, below);
    ReachesTrans(code, c, a, b);
    ReachesTrans(code, c, b, d);
    assert d.log == [Branch(JMP8, 66, to), Branch(RET, retAt, caller)];
  }

  /** Up to an alignment of 129 the warm-up goes from slot to slot, for any number of them. */
  lemma WarmUpAvoidsBranches(code: seq<byte>, alignment: int, n: nat, c: Cpu)
    requires Loaded(code, JmpWeaved, alignment, n) && (n == 0 || 4 <= alignment <= 129)
    requires c.ip == FnAt(JmpWeaved) + 2 && c.log == []
    ensures WarmUpArrives(code, alignment, n, c)
  {
    if n > 0 {
      WarmRun(code, alignment, n, n, c);
      WarmLogAvoidsSlots(alignment, n, n);
      assert c.log + WarmLog(alignment, n) == WarmLog(alignment, n);
    }
  }

  /** From the second closing ret control returns to the caller. */
  lemma ArrivedReturns(code: seq<byte>, alignment: int, n: nat, c: Cpu, caller: int, below: seq<int>)
    requires Loaded(code, JmpWeaved, alignment, n) && c.stack == below + [caller]
             && WarmUpArrives(code, alignment, n, c)
    ensures WarmUpReturns(code, alignment, n, c, caller, below)
  {
    var retAt := RetAt(JmpWeaved, alignment, n);
    var b :| Reaches(code, c, b) && b.ip == retAt + 2 && b.stack == c.stack && !TouchesSlot(b.log, alignment, n);
    assert Tail(JmpWeaved) == [RET, NOP] + [RET] + [NOP];
    HoldsParts(code, retAt, [RET, NOP] + [RET], [NOP]);
    HoldsParts(code, retAt, [RET, NOP], [RET]);
    RetStep(code, b, caller, below);
    var d := Jump(b, RET, caller).(stack := below);
    ReachesTrans(code, c, b, d);
    forall j, i | 0 <= j < |d.log| && 0 <= i < n ensures d.log[j].at != SlotAt(JmpWeaved, alignment, i) {
      if j == |b.log| { SlotsApart(JmpWeaved, alignment, i, n); } else { assert d.log[j] == b.log[j]; }
    }
  }

  /** The warm-up gets to the second closing ret exactly up to an alignment of 129, or when there are no slots. */
  lemma WarmUpArrivesIff(code: seq<byte>, alignment: int, n: nat, c: Cpu, caller: int, below: seq<int>)
    requires Loaded(code, JmpWeaved, alignment, n) && alignment >= 4
    requires c.ip == FnAt(JmpWeaved) + 2 && c.log == []
    requires Outside(code, caller) && c.stack == below + [caller]
    ensures WarmUpArrives(code, alignment, n, c) <==> n == 0 || alignment <= 129
  {
    if n == 0 || alignment <= 129 {
      WarmUpAvoidsBranches(code, alignment, n, c);
    } else {
      WideSlotBytes(code, alignment, n);
      var retAt := RetAt(JmpWeaved, alignment, n);
      assert retAt + 2 < |code| && retAt >= 64 + alignment by {
        ByteAt(code, retAt, Tail(JmpWeaved), 2);
        SlotsApart(JmpWeaved, alignment, 0, n);
      }
      forall c' | Reaches(code, c, c') && c'.ip == retAt + 2 && c'.stack == c.stack
        ensures TouchesSlot(c'.log, alignment, n)
      {
        if Operand(JmpWeaved, alignment) < 0x80 {
          FallsShortForever(code, alignment, n, below, caller, c, c');
        } else {
          GoesBackForever(code, alignment, n, below, caller, c, c');
        }
      }
    }
  }

  /**
   When the warm-up returns without a measured branch beyond an alignment of 129, where it no longer
   goes from slot to slot.
   */
  lemma WideWarmUpIff(code: seq<byte>, alignment: int, n: nat, c: Cpu, caller: int, below: seq<int>)
    requires Loaded(code, JmpWeaved, alignment, n) && alignment > 129 && n > 0
    requires c.ip == FnAt(JmpWeaved) + 2 && c.log == []
    requires Outside(code, caller) && c.stack == below + [caller]
    ensures WarmUpReturns(code, alignment, n, c, caller, below)
            <==> IntoHead(Operand(JmpWeaved, alignment)) || (n == 1 && Operand(JmpWeaved, alignment) < 0x80)
  {
    WideSlotBytes(code, alignment, n);
    var operand := Operand(JmpWeaved, alignment);
    forall i | 0 <= i < n
      ensures SlotAt(JmpWeaved, alignment, i) == 64 || SlotAt(JmpWeaved, alignment, i) >= 64 + alignment
    {
      if i > 0 { SlotsApart(JmpWeaved, alignment, 0, i); }
    }
    if IntoHead(operand) {
      JumpSlideReturn(code, alignment, n, c, 63, caller, below);
    } else if operand >= 0x80 {
      forall c' | Reaches(code, c, c') && c'.ip == caller && c'.stack == below
        ensures TouchesSlot(c'.log, alignment, n)
      {
        NeverReturnsForever(code, alignment, n, c.stack, c, c');
      }
    } else if n == 1 {
      JumpSlideReturn(code, alignment, n, c, 64 + alignment, caller, below);
    } else {
      forall c' | Reaches(code, c, c') && c'.ip == caller && c'.stack == below
        ensures TouchesSlot(c'.log, alignment, n)
      {
        FallsShortForever(code, alignment, n, below, caller, c, c');
      }
    }
  }

  /**
   blob_warm_icache wants a warm-up that runs other branches than the measured ones.  With a
   displacement cut to eight bits it gets that, for every number of slots, exactly when the
   jump goes from slot to slot, back into the nops in front of the code, or with a single
   slot forward into the nops behind the two jumps.
   */
  lemma WarmUpIff(code: seq<byte>, alignment: int, n: nat, c: Cpu, caller: int, below: seq<int>)
    requires Loaded(code, JmpWeaved, alignment, n) && alignment >= 4
    requires c.ip == FnAt(JmpWeaved) + 2 && c.log == []
    requires Outside(code, caller) && c.stack == below + [caller]
    ensures WarmUpReturns(code, alignment, n, c, caller, below)
            <==> || n == 0
                 || alignment <= 129
                 || 188 <= (alignment - 2) % 0x100 <= 251
                 || (n == 1 && (alignment - 2) % 0x100 < 0x80)
  {
    if n == 0 || alignment <= 129 {
      WarmUpAvoidsBranches(code, alignment, n, c);
      ArrivedReturns(code, alignment, n, c, caller, below);
    } else {
      WideWarmUpIff(code, alignment, n, c, caller, below);
    }
  }
}
