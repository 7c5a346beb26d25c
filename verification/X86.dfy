/**
 The fragment of x86-64 that the branch gadgets are made of: a decoder and stepper over the
 bytes of the code blob.  Code addresses are offsets from the start of the blob.
 */
module X86 {
  import opened Basics

  /** One executed branch instruction: its opcode, its address and where control went. */
  datatype Branch = Branch(op: byte, at: int, to: int)

  /** The top of the stack is the last element; log lists the branches executed so far. */
  datatype Cpu = Cpu(ip: int, stack: seq<int>, ecx: int, zf: bool, log: seq<Branch>)

  const NOP: byte := 0x90
  const RET: byte := 0xc3
  const CALL: byte := 0xe8
  const JMP32: byte := 0xe9
  const JMP8: byte := 0xeb
  const JE8: byte := 0x74
  const JNE8: byte := 0x75

  function Signed8(b: byte): int {
    if b < 0x80 then b else b - 0x100
  }

  function Signed32(b0: byte, b1: byte, b2: byte, b3: byte): int {
    var u := b0 + 0x100 * b1 + 0x1_0000 * b2 + 0x100_0000 * b3;
    if u < 0x8000_0000 then u else u - 0x1_0000_0000
  }

  /** The four little-endian bytes of the low 32 bits of x. */
  function Le32(x: int): (bs: seq<byte>)
    ensures |bs| == 4
  {
    var u := x % 0x1_0000_0000;
    [u % 0x100, u / 0x100 % 0x100, u / 0x1_0000 % 0x100, u / 0x100_0000 % 0x100]
  }

  lemma Le32RoundTrip(x: int)
    requires -0x8000_0000 <= x < 0x8000_0000
    ensures var b := Le32(x); Signed32(b[0], b[1], b[2], b[3]) == x
  {
    var u := x % 0x1_0000_0000;
    assert u == if x < 0 then x + 0x1_0000_0000 else x;
    var q1, q2, q3 := u / 0x100, u / 0x1_0000, u / 0x100_0000;
    assert q2 == q1 / 0x100 && q3 == q2 / 0x100 && 0 <= q3 < 0x100;
  }

  function Jump(c: Cpu, op: byte, to: int): Cpu {
    c.(ip := to, log := c.log + [Branch(op, c.ip, to)])
  }

  function Rel32(code: seq<byte>, ip: int): int
    requires 0 <= ip && ip + 5 <= |code|
  {
    Signed32(code[ip + 1], code[ip + 2], code[ip + 3], code[ip + 4])
  }

  /** Execute one instruction; None for an address outside the blob or bytes outside the fragment. */
  function Step(code: seq<byte>, c: Cpu): Option<Cpu> {
    var ip := c.ip;
    if !(0 <= ip < |code|) then None
    else if code[ip] == NOP then Some(c.(ip := ip + 1))
    else if code[ip] == RET then
      if c.stack == [] then None
      else
        var top := |c.stack| - 1;
        Some(Jump(c, RET, c.stack[top]).(stack := c.stack[..top]))
    else if ip + 2 > |code| then None
    else if code[ip] == JMP8 then Some(Jump(c, JMP8, ip + 2 + Signed8(code[ip + 1])))
    else if code[ip] == JE8 then Some(Jump(c, JE8, ip + 2 + if c.zf then Signed8(code[ip + 1]) else 0))
    else if code[ip] == JNE8 then Some(Jump(c, JNE8, ip + 2 + if c.zf then 0 else Signed8(code[ip + 1])))
    else if code[ip] == 0xff && code[ip + 1] == 0xc9 then
      var ecx := (c.ecx - 1) % 0x1_0000_0000;
      Some(c.(ip := ip + 2, ecx := ecx, zf := ecx == 0))
    else if ip + 4 > |code| then None
    else if code[ip] == 0x48 && code[ip + 1] == 0x83 && code[ip + 2] == 0xc4 && code[ip + 3] == 0x08 then
      if c.stack == [] then None
      else Some(c.(ip := ip + 4, stack := c.stack[..|c.stack| - 1], zf := false))
    else if ip + 5 > |code| then None
    else if code[ip] == JMP32 then Some(Jump(c, JMP32, ip + 5 + Rel32(code, ip)))
    else if code[ip] == CALL then Some(Jump(c, CALL, ip + 5 + Rel32(code, ip)).(stack := c.stack + [ip + 5]))
    else if code[ip] == 0xb9 then Some(c.(ip := ip + 5, ecx := Rel32(code, ip) % 0x1_0000_0000))
    else None
  }

  /** The two-byte branches: taken, they go on from behind them by their operand read as signed. */
  lemma ShortBranchSteps(code: seq<byte>, c: Cpu, taken: bool)
    requires 0 <= c.ip && c.ip + 2 <= |code|
    requires code[c.ip] in {0xeb, 0x74, 0x75} && (code[c.ip] == 0xeb ==> taken)
    requires (code[c.ip] == 0x74 ==> taken == c.zf) && (code[c.ip] == 0x75 ==> taken == !c.zf)
    ensures var d := code[c.ip + 1] as int;
            var to := c.ip + 2 + if !taken then 0 else if d < 128 then d else d - 256;
            Step(code, c) == Some(c.(ip := to, log := c.log + [Branch(code[c.ip], c.ip, to)]))
  {
  }

  function Run(code: seq<byte>, c: Cpu, k: nat): Option<Cpu>
    decreases k
  {
    if k == 0 then Some(c)
    else
      match Step(code, c)
      case None => None
      case Some(c') => Run(code, c', k - 1)
  }

  /** Every step from a state with the property leads to a state with the property. */
  ghost predicate Closed(code: seq<byte>, prop: Cpu -> bool) {
    forall c :: prop(c) && Step(code, c).Some? ==> prop(Step(code, c).value)
  }

  /**
   Running from c gets to c': c' has every property that c has and that steps preserve.
   ReachesIsRun shows that this is the same as finitely many steps.
   */
  ghost predicate Reaches(code: seq<byte>, c: Cpu, c': Cpu) {
    forall prop: Cpu -> bool :: Closed(code, prop) && prop(c) ==> prop(c')
  }

  lemma {:induction false} RunKeeps(code: seq<byte>, prop: Cpu -> bool, c: Cpu, k: nat)
    requires Closed(code, prop) && prop(c)
    ensures Run(code, c, k).Some? ==> prop(Run(code, c, k).value)
    decreases k
  {
    if k > 0 && Step(code, c).Some? {
      RunKeeps(code, prop, Step(code, c).value, k - 1);
    }
  }

  lemma {:induction false} RunOneMore(code: seq<byte>, c: Cpu, k: nat)
    requires Run(code, c, k).Some?
    ensures Run(code, c, k + 1) == Step(code, Run(code, c, k).value)
    decreases k
  {
    if k > 0 {
      RunOneMore(code, Step(code, c).value, k - 1);
    }
  }

  ghost predicate RunsTo(code: seq<byte>, c: Cpu, c': Cpu) {
    exists k: nat :: Run(code, c, k) == Some(c')
  }

  lemma ReachesIsRun(code: seq<byte>, c: Cpu, c': Cpu)
    ensures Reaches(code, c, c') <==> RunsTo(code, c, c')
  {
    if RunsTo(code, c, c') {
      var k: nat :| Run(code, c, k) == Some(c');
      forall prop: Cpu -> bool | Closed(code, prop) && prop(c) ensures prop(c') {
        RunKeeps(code, prop, c, k);
      }
    }
    if Reaches(code, c, c') {
      var prop := (x: Cpu) => RunsTo(code, c, x);
      forall x | prop(x) && Step(code, x).Some? ensures prop(Step(code, x).value) {
        var k: nat :| Run(code, c, k) == Some(x);
        RunOneMore(code, c, k);
      }
      assert Closed(code, prop);
      assert Run(code, c, 0) == Some(c);
    }
  }

  /** Steps only append to the log. */
  lemma LogGrows(code: seq<byte>, c: Cpu, c': Cpu)
    requires Reaches(code, c, c')
    ensures c.log <= c'.log
  {
    var prop := (x: Cpu) => c.log <= x.log;
    assert Closed(code, prop);
  }

  /** A step either appends one branch, taken from where it was to where it is now, or goes forward. */
  lemma StepLog(code: seq<byte>, c: Cpu)
    requires Step(code, c).Some?
    ensures var next := Step(code, c).value;
            || (next.log == c.log && next.ip > c.ip)
            || (|next.log| == |c.log| + 1 && next.log[..|c.log|] == c.log
                && next.log[|c.log|].at == c.ip && next.log[|c.log|].to == next.ip)
  {
  }

  lemma ReachesTrans(code: seq<byte>, a: Cpu, b: Cpu, c: Cpu)
    requires Reaches(code, a, b) && Reaches(code, b, c)
    ensures Reaches(code, a, c)
  {
  }

  lemma ReachesStep(code: seq<byte>, a: Cpu, b: Cpu)
    requires Step(code, a) == Some(b)
    ensures Reaches(code, a, b)
  {
  }

  // ----- bytes laid out in the blob

  predicate Holds(code: seq<byte>, at: int, bs: seq<byte>) {
    0 <= at && at + |bs| <= |code| && forall i :: 0 <= i < |bs| ==> code[at + i] == bs[i]
  }

  lemma ByteAt(code: seq<byte>, at: int, bs: seq<byte>, i: nat)
    requires Holds(code, at, bs) && i < |bs|
    ensures code[at + i] == bs[i]
  {
  }

  lemma HoldsParts(code: seq<byte>, at: int, a: seq<byte>, b: seq<byte>)
    requires Holds(code, at, a + b)
    ensures Holds(code, at, a) && Holds(code, at + |a|, b)
  {
    assert forall i :: 0 <= i < |a| ==> (a + b)[i] == a[i];
    forall i | 0 <= i < |b| ensures code[at + |a| + i] == b[i] {
      assert code[at + (|a| + i)] == (a + b)[|a| + i];
    }
  }

  function Fill(b: byte, n: int): (bs: seq<byte>)
    ensures |bs| == if n < 0 then 0 else n
    ensures forall i :: 0 <= i < |bs| ==> bs[i] == b
  {
    if n < 0 then [] else seq(n, _ => b)
  }

  /** A run of nops falls through. */
  lemma {:induction false} Sled(code: seq<byte>, c: Cpu, n: int)
    requires n >= 0 && Holds(code, c.ip, Fill(NOP, n))
    ensures Reaches(code, c, c.(ip := c.ip + n))
    decreases n
  {
    if n == 0 {
      assert c == c.(ip := c.ip + n);
    } else {
      var c1 := c.(ip := c.ip + 1);
      ByteAt(code, c.ip, Fill(NOP, n), 0);
      ReachesStep(code, c, c1);
      assert Fill(NOP, n) == [NOP] + Fill(NOP, n - 1);
      HoldsParts(code, c.ip, [NOP], Fill(NOP, n - 1));
      Sled(code, c1, n - 1);
      ReachesTrans(code, c, c1, c.(ip := c.ip + n));
    }
  }

  lemma ReadRel32(code: seq<byte>, ip: int, op: byte, b: seq<byte>)
    requires |b| == 4 && Holds(code, ip, [op] + b)
    ensures 0 <= ip && ip + 5 <= |code| && code[ip] == op
    ensures Rel32(code, ip) == Signed32(b[0], b[1], b[2], b[3])
  {
    var bs := [op] + b;
    ByteAt(code, ip, bs, 0);
    ByteAt(code, ip, bs, 1);
    ByteAt(code, ip, bs, 2);
    ByteAt(code, ip, bs, 3);
    ByteAt(code, ip, bs, 4);
  }

  /** The operand written by PUTQ is read back as the signed displacement. */
  lemma ReadBackRel32(code: seq<byte>, ip: int, op: byte, rel: int)
    requires -0x8000_0000 <= rel < 0x8000_0000
    requires Holds(code, ip, [op] + Le32(rel))
    ensures 0 <= ip && ip + 5 <= |code| && code[ip] == op && Rel32(code, ip) == rel
  {
    ReadRel32(code, ip, op, Le32(rel));
    Le32RoundTrip(rel);
  }

  lemma CallStep(code: seq<byte>, c: Cpu, rel: int)
    requires -0x8000_0000 <= rel < 0x8000_0000
    requires Holds(code, c.ip, [CALL] + Le32(rel))
    ensures Reaches(code, c, Jump(c, CALL, c.ip + 5 + rel).(stack := c.stack + [c.ip + 5]))
  {
    ReadBackRel32(code, c.ip, CALL, rel);
    ReachesStep(code, c, Jump(c, CALL, c.ip + 5 + rel).(stack := c.stack + [c.ip + 5]));
  }

  lemma JmpStep(code: seq<byte>, c: Cpu, rel: int)
    requires -0x8000_0000 <= rel < 0x8000_0000
    requires Holds(code, c.ip, [JMP32] + Le32(rel))
    ensures Reaches(code, c, Jump(c, JMP32, c.ip + 5 + rel))
  {
    ReadBackRel32(code, c.ip, JMP32, rel);
    ReachesStep(code, c, Jump(c, JMP32, c.ip + 5 + rel));
  }

  /** A ret goes back to the address a call pushed and undoes the push. */
  lemma RetStep(code: seq<byte>, c: Cpu, back: int, below: seq<int>)
    requires Holds(code, c.ip, [RET]) && c.stack == below + [back]
    ensures Reaches(code, c, Jump(c, RET, back).(stack := below))
  {
    ByteAt(code, c.ip, [RET], 0);
    assert c.stack[..|c.stack| - 1] == below;
    ReachesStep(code, c, Jump(c, RET, back).(stack := below));
  }

  lemma Jmp8Step(code: seq<byte>, c: Cpu, operand: byte)
    requires Holds(code, c.ip, [JMP8, operand])
    ensures Reaches(code, c, Jump(c, JMP8, c.ip + 2 + Signed8(operand)))
  {
    ByteAt(code, c.ip, [JMP8, operand], 0);
    ByteAt(code, c.ip, [JMP8, operand], 1);
    ReachesStep(code, c, Jump(c, JMP8, c.ip + 2 + Signed8(operand)));
  }

  lemma JeTakenStep(code: seq<byte>, c: Cpu, operand: byte)
    requires Holds(code, c.ip, [JE8, operand]) && c.zf
    ensures Reaches(code, c, Jump(c, JE8, c.ip + 2 + Signed8(operand)))
  {
    ByteAt(code, c.ip, [JE8, operand], 0);
    ByteAt(code, c.ip, [JE8, operand], 1);
    ReachesStep(code, c, Jump(c, JE8, c.ip + 2 + Signed8(operand)));
  }

  lemma JneNotTakenStep(code: seq<byte>, c: Cpu, operand: byte)
    requires Holds(code, c.ip, [JNE8, operand]) && c.zf
    ensures Reaches(code, c, Jump(c, JNE8, c.ip + 2))
  {
    ByteAt(code, c.ip, [JNE8, operand], 0);
    ByteAt(code, c.ip, [JNE8, operand], 1);
    ReachesStep(code, c, Jump(c, JNE8, c.ip + 2));
  }

  const ADD_RSP_8: seq<byte> := [0x48, 0x83, 0xc4, 0x08]

  /** add rsp, 8 drops the top of the stack. */
  lemma AddRspStep(code: seq<byte>, c: Cpu, below: seq<int>, top: int)
    requires Holds(code, c.ip, ADD_RSP_8) && c.stack == below + [top]
    ensures Reaches(code, c, c.(ip := c.ip + 4, stack := below, zf := false))
  {
    ByteAt(code, c.ip, ADD_RSP_8, 0);
    ByteAt(code, c.ip, ADD_RSP_8, 1);
    ByteAt(code, c.ip, ADD_RSP_8, 2);
    ByteAt(code, c.ip, ADD_RSP_8, 3);
    assert c.stack[..|c.stack| - 1] == below;
    ReachesStep(code, c, c.(ip := c.ip + 4, stack := below, zf := false));
  }
}
