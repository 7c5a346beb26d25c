/**
 The aarch64 object loader: the CALL26 patch and the movz/movk/movk/br jump stub, with a decoder
 for the instructions involved.
 */
module Aarch64 {
  import opened Basics
  import opened Arith
  import opened Bits

  const TWO26 := 0x400_0000
  const TWO32 := 0x1_0000_0000

  type word = x: int | 0 <= x < TWO32

  // ----- masks

  lemma Powers()
    ensures Pow2(5) == 32 && Pow2(16) == 0x1_0000 && Pow2(26) == TWO26 && Pow2(32) == TWO32
  {
    Pow64();
    assert Pow2(5) == 32 && Pow2(8) == 256;
    Pow2Step8(8);
    Pow2Step8(16);
    assert Pow2(26) == 4 * Pow2(24);
  }

  /** x &= 0xffffffff << 26. */
  lemma KeepOpcode(x: word)
    ensures BitAnd(x, TWO32 - TWO26) == x / TWO26 * TWO26
  {
    Powers();
    HighMask(x, 26, 32);
  }

  /** val &= ~(0xffffffff << 26). */
  lemma KeepImmediate(v: word)
    ensures BitAnd(v, TWO26 - 1) == v % TWO26
  {
    Powers();
    MaskIsMod(v, 26);
  }

  // ----- R_AARCH64_CALL26

  /** The word that a branch with this opcode and this displacement should be. */
  function Branch26(opcode: nat, d: int): nat {
    opcode * TWO26 + d / 4 % TWO26
  }

  lemma QuarterWraps(d: int)
    ensures d / 4 % TWO32 % TWO26 == d / 4 % TWO26
  {
    var q := d / 4;
    var a, r := q / TWO32, q % TWO32;
    assert q == 64 * a * TWO26 + r;
    assert r == r / TWO26 * TWO26 + r % TWO26;
    ModUnique(q, TWO26, 64 * a + r / TWO26, r % TWO26);
  }

  /** The two masks and the or put the displacement, in words, below the opcode. */
  lemma PatchedWord(x: word, v: word)
    ensures BitOr(BitAnd(x, TWO32 - TWO26), BitAnd(v, TWO26 - 1)) == x / TWO26 * TWO26 + v % TWO26
    ensures x / TWO26 * TWO26 + v % TWO26 < TWO32
  {
    KeepOpcode(x);
    KeepImmediate(v);
    Powers();
    OrIsSum(x / TWO26, 26, v % TWO26);
  }

  /** The CALL26 case on the instruction word w of the code; d is S + A - P. */
  method PatchCall26(code: array<word>, w: nat, d: int)
    requires w < code.Length
    modifies code
    ensures code[w] == Branch26(old(code[w]) / TWO26, d)
    ensures forall k :: 0 <= k < code.Length && k != w ==> code[k] == old(code[k])
  {
    var maskBl := TWO32 - TWO26;
    var val: word := d / 4 % TWO32;
    PatchedWord(code[w], val);
    QuarterWraps(d);
    KeepOpcode(code[w]);
    KeepImmediate(val);
    code[w] := BitAnd(code[w], maskBl);
    val := BitAnd(val, TWO32 - 1 - maskBl);
    code[w] := BitOr(code[w], val);
  }

  /** Where b or bl at address p goes: its 26-bit immediate is a signed number of words. */
  function BranchTarget(x: word, p: int): int {
    var imm := x % TWO26;
    p + 4 * (if imm < TWO26 / 2 then imm else imm - TWO26)
  }

  /**
   The patched branch keeps its opcode, and goes to S + A exactly when that is a whole number of
   words less than 2^27 bytes away.
   */
  lemma CallArrivesIff(opcode: nat, p: int, d: int)
    requires opcode < 64
    ensures Branch26(opcode, d) < TWO32 && Branch26(opcode, d) / TWO26 == opcode
    ensures BranchTarget(Branch26(opcode, d), p) == p + d <==> d % 4 == 0 && -0x800_0000 <= d < 0x800_0000
  {
    var q := d / 4;
    var imm := q % TWO26;
    ModUnique(opcode * TWO26 + imm, TWO26, opcode, imm);
    assert d == 4 * q + d % 4;
    if -0x200_0000 <= q < 0 {
      ModUnique(q, TWO26, -1, q + TWO26);
    } else if 0 <= q < 0x200_0000 {
      ModUnique(q, TWO26, 0, q);
    }
  }

  // ----- the jump stub

  const MOV_X9: word := 0xd280_0009
  const MOVK_X9_16: word := 0xf2a0_0009
  const MOVK_X9_32: word := 0xf2c0_0009
  const BR_X9: word := 0xd61f_0120

  /** (addr << 48) >> 43 on 64 bits: sixteen bits of the address where an instruction has its immediate. */
  function Immediate(addr: nat): nat {
    addr * 0x1_0000_0000_0000 % TWO64 / 0x800_0000_0000
  }

  lemma ImmediateIs16Bits(addr: nat)
    ensures Immediate(addr) == addr % 0x1_0000 * 32
  {
    var q, r := addr / 0x1_0000, addr % 0x1_0000;
    assert addr * 0x1_0000_0000_0000 == q * TWO64 + r * 0x1_0000_0000_0000;
    ModUnique(addr * 0x1_0000_0000_0000, TWO64, q, r * 0x1_0000_0000_0000);
    ModUnique(r * 0x1_0000_0000_0000, 0x800_0000_0000, r * 32, 0);
  }

  /** Or-ing the immediate into an instruction whose immediate field is zero. */
  lemma WithImmediate(high: nat, imm: nat)
    requires imm < 0x1_0000
    ensures BitOr(high * 0x20_0000 + 9, imm * 32) == high * 0x20_0000 + imm * 32 + 9
  {
    Powers();
    OrIsSum(high, 16, imm);
    OrAbove(high * 0x1_0000, imm, 5, 9);
  }

  /**
   The instructions of the stub: move a 16-bit immediate into a register, at a shift of 16 * hw bits,
   or branch to a register.
   */
  datatype Instruction = MovZ(rd: nat, hw: nat, imm: nat) | MovK(rd: nat, hw: nat, imm: nat) | Br(rn: nat)

  function Decode(x: nat): (r: Option<Instruction>)
    ensures r.Some? ==> (if r.value.Br? then r.value.rn else r.value.rd) < 32
  {
    var rd, imm, hw, op := x % 32, x / 32 % 0x1_0000, x / 0x20_0000 % 4, x / 0x80_0000;
    if op == 0x1a5 then Some(MovZ(rd, hw, imm))
    else if op == 0x1e5 then Some(MovK(rd, hw, imm))
    else if x % 32 == 0 && x / 1024 == 0x35_87c0 then Some(Br(x / 32 % 32))
    else None
  }

  lemma FieldsOfMove(x: word)
    ensures x == x / 0x80_0000 * 0x80_0000 + x / 0x20_0000 % 4 * 0x20_0000 + x / 32 % 0x1_0000 * 32 + x % 32
  {
  }

  lemma MoveIff(x: word, op: nat, hw: nat, imm: nat, r: nat)
    requires hw < 4 && imm < 0x1_0000 && r < 32
    ensures x / 0x80_0000 == op && x / 0x20_0000 % 4 == hw && x / 32 % 0x1_0000 == imm && x % 32 == r
            <==> x == op * 0x80_0000 + hw * 0x20_0000 + imm * 32 + r
  {
    FieldsOfMove(x);
    if x == op * 0x80_0000 + hw * 0x20_0000 + imm * 32 + r {
      ModUnique(x, 32, op * 0x4_0000 + hw * 0x1_0000 + imm, r);
      ModUnique(x / 32, 0x1_0000, op * 4 + hw, imm);
      ModUnique(x, 0x20_0000, op * 4 + hw, imm * 32 + r);
      ModUnique(x, 0x80_0000, op, hw * 0x20_0000 + imm * 32 + r);
    }
  }

  lemma BranchIff(x: word, r: nat)
    requires r < 32
    ensures Decode(x) == Some(Br(r)) <==> x == 0xd61f_0000 + r * 32
  {
    if x == 0xd61f_0000 + r * 32 {
      ModUnique(x, 32, 0x6b0_f800 + r, 0);
      ModUnique(x, 1024, 0x35_87c0, r * 32);
      ModUnique(x, 0x80_0000, 0x1ac, 0x1f_0000 + r * 32);
    }
  }

  /** The 32-bit encodings of the three instructions. */
  lemma DecodeIff(x: word, hw: nat, imm: nat, r: nat)
    requires hw < 4 && imm < 0x1_0000 && r < 32
    ensures Decode(x) == Some(MovZ(r, hw, imm)) <==> x == 0xd280_0000 + hw * 0x20_0000 + imm * 32 + r
    ensures Decode(x) == Some(MovK(r, hw, imm)) <==> x == 0xf280_0000 + hw * 0x20_0000 + imm * 32 + r
    ensures Decode(x) == Some(Br(r)) <==> x == 0xd61f_0000 + r * 32
  {
    MoveIff(x, 0x1a5, hw, imm, r);
    MoveIff(x, 0x1e5, hw, imm, r);
    BranchIff(x, r);
  }

  function Shift(hw: nat): nat {
    if hw == 0 then 1 else if hw == 1 then 0x1_0000 else if hw == 2 then 0x1_0000_0000 else 0x1_0000_0000_0000
  }

  /** The sixteen bits of x at a shift replaced by imm. */
  function Insert(x: nat, shift: nat, imm: nat): nat
    requires shift > 0
  {
    FieldBelow(x, shift);
    x - x / shift % 0x1_0000 * shift + imm * shift
  }

  /** The field becomes imm, and what is above and below it stays. */
  lemma InsertReplaces(x: nat, shift: nat, imm: nat)
    requires shift > 0 && imm < 0x1_0000
    ensures Insert(x, shift, imm) % shift == x % shift
    ensures Insert(x, shift, imm) / shift % 0x1_0000 == imm
    ensures Insert(x, shift, imm) / shift / 0x1_0000 == x / shift / 0x1_0000
  {
    var q, low := x / shift, x % shift;
    var top := q / 0x1_0000;
    assert x == q * shift + low;
    assert q == top * 0x1_0000 + q % 0x1_0000;
    var next := top * 0x1_0000 + imm;
    assert Insert(x, shift, imm) == next * shift + low;
    ModUnique(next * shift + low, shift, next, low);
    ModUnique(next, 0x1_0000, top, imm);
  }

  lemma FieldBelow(x: nat, shift: nat)
    requires shift > 0
    ensures x / shift % 0x1_0000 * shift <= x
  {
    var q := x / shift;
    var over := q - q % 0x1_0000;
    assert x >= q * shift;
    MulNonNegative(over, shift);
    assert over * shift == q * shift - q % 0x1_0000 * shift;
  }

  /** Running moves into the registers, up to a branch: the address it goes to. */
  function RunStub(regs: seq<nat>, ws: seq<nat>): Option<nat>
    requires |regs| == 32
    decreases |ws|
  {
    if ws == [] then None
    else
      match Decode(ws[0])
      case Some(MovZ(rd, hw, imm)) => RunStub(regs[rd := imm * Shift(hw)], ws[1..])
      case Some(MovK(rd, hw, imm)) => RunStub(regs[rd := Insert(regs[rd], Shift(hw), imm)], ws[1..])
      case Some(Br(rn)) => Some(regs[rn])
      case None => None
  }

  lemma DecodeFields(high: nat, imm: nat)
    requires imm < 0x1_0000
    ensures var x := high * 0x20_0000 + imm * 32 + 9;
            x % 32 == 9 && x / 32 % 0x1_0000 == imm && x / 0x20_0000 % 4 == high % 4 && x / 0x80_0000 == high / 4
  {
    var x := high * 0x20_0000 + imm * 32 + 9;
    ModUnique(x, 32, high * 0x1_0000 + imm, 9);
    ModUnique(high * 0x1_0000 + imm, 0x1_0000, high, imm);
    ModUnique(x, 0x20_0000, high, imm * 32 + 9);
    ModUnique(x, 0x80_0000, high / 4, high % 4 * 0x20_0000 + imm * 32 + 9);
  }

  /** The four words say: movz x9, movk x9 and movk x9 with 16 bits of the address each, br x9. */
  ghost predicate IsStub(ws: seq<nat>, addr: nat) {
    && |ws| == 4
    && Decode(ws[0]) == Some(MovZ(9, 0, addr % 0x1_0000))
    && Decode(ws[1]) == Some(MovK(9, 1, addr / 0x1_0000 % 0x1_0000))
    && Decode(ws[2]) == Some(MovK(9, 2, addr / 0x1_0000_0000 % 0x1_0000))
    && Decode(ws[3]) == Some(Br(9))
  }

  /** An instruction word with 16 bits of the address or-ed in. */
  method MoveWord(base: word, high: nat, addr: nat) returns (w: nat)
    requires base == high * 0x20_0000 + 9
    ensures w == high * 0x20_0000 + addr % 0x1_0000 * 32 + 9
  {
    ImmediateIs16Bits(addr);
    WithImmediate(high, addr % 0x1_0000);
    w := BitOr(base, Immediate(addr));
  }

  /** The words stored into a jump table entry for the function at addr. */
  method BuildStub(addr: uint64) returns (ws: seq<nat>)
    ensures IsStub(ws, addr)
  {
    var mov := MoveWord(MOV_X9, 0x694, addr);
    var movk1 := MoveWord(MOVK_X9_16, 0x795, addr / 0x1_0000);
    var movk2 := MoveWord(MOVK_X9_32, 0x796, addr / 0x1_0000_0000);
    MoveDecodes(mov, 0x694, addr % 0x1_0000);
    MoveDecodes(movk1, 0x795, addr / 0x1_0000 % 0x1_0000);
    MoveDecodes(movk2, 0x796, addr / 0x1_0000_0000 % 0x1_0000);
    return [mov, movk1, movk2, BR_X9];
  }

  lemma MoveDecodes(w: nat, high: nat, imm: nat)
    requires imm < 0x1_0000 && w == high * 0x20_0000 + imm * 32 + 9
    requires high / 4 == 0x1a5 || high / 4 == 0x1e5
    ensures Decode(w) == Some(if high / 4 == 0x1a5 then MovZ(9, high % 4, imm) else MovK(9, high % 4, imm))
  {
    DecodeFields(high, imm);
  }

  lemma InsertAbove(x: nat, shift: nat, imm: nat)
    requires x < shift
    ensures Insert(x, shift, imm) == x + imm * shift
  {
    ModUnique(x, shift, 0, x);
  }

  lemma TwoInserts(a: nat, b: nat, c: nat)
    requires a < 0x1_0000 && b < 0x1_0000
    ensures Insert(Insert(a, 0x1_0000, b), 0x1_0000_0000, c) == a + b * 0x1_0000 + c * 0x1_0000_0000
  {
    InsertAbove(a, 0x1_0000, b);
    InsertAbove(a + b * 0x1_0000, 0x1_0000_0000, c);
  }

  lemma RunMoves(regs: seq<nat>, s: seq<nat>, a: nat, b: nat, c: nat)
    requires |regs| == 32 && |s| == 4 && a < 0x1_0000 && b < 0x1_0000
    requires Decode(s[0]) == Some(MovZ(9, 0, a)) && Decode(s[1]) == Some(MovK(9, 1, b))
    requires Decode(s[2]) == Some(MovK(9, 2, c)) && Decode(s[3]) == Some(Br(9))
    ensures RunStub(regs, s) == Some(a + b * 0x1_0000 + c * 0x1_0000_0000)
  {
    var r1 := regs[9 := a];
    var r2 := regs[9 := Insert(a, 0x1_0000, b)];
    var r3 := regs[9 := Insert(Insert(a, 0x1_0000, b), 0x1_0000_0000, c)];
    assert r1[9 := r2[9]] == r2 && r2[9 := r3[9]] == r3;
    assert RunStub(regs, s) == RunStub(r1, s[1..]);
    assert RunStub(r1, s[1..]) == RunStub(r2, s[1..][1..]);
    assert RunStub(r2, s[1..][1..]) == RunStub(r3, s[1..][1..][1..]);
    assert RunStub(r3, s[1..][1..][1..]) == Some(r3[9]);
    TwoInserts(a, b, c);
  }

  lemma Low48(addr: nat)
    ensures addr % 0x1_0000_0000_0000
         == addr % 0x1_0000 + addr / 0x1_0000 % 0x1_0000 * 0x1_0000 + addr / 0x1_0000_0000 % 0x1_0000 * 0x1_0000_0000
  {
    var a, q1 := addr % 0x1_0000, addr / 0x1_0000;
    var b, q2 := q1 % 0x1_0000, q1 / 0x1_0000;
    var c, q3 := q2 % 0x1_0000, q2 / 0x1_0000;
    assert addr == q1 * 0x1_0000 + a && q1 == q2 * 0x1_0000 + b && q2 == q3 * 0x1_0000 + c;
    ModUnique(addr, 0x1_0000_0000, q2, b * 0x1_0000 + a);
    ModUnique(addr, 0x1_0000_0000_0000, q3, c * 0x1_0000_0000 + b * 0x1_0000 + a);
  }

  lemma StubRuns(regs: seq<nat>, ws: seq<nat>, addr: nat)
    requires |regs| == 32 && IsStub(ws, addr)
    ensures RunStub(regs, ws) == Some(addr % 0x1_0000_0000_0000)
  {
    Low48(addr);
    RunMoves(regs, ws, addr % 0x1_0000, addr / 0x1_0000 % 0x1_0000, addr / 0x1_0000_0000 % 0x1_0000);
  }

  /** The stub goes to its function, whatever was in the registers, exactly when the address has at most 48 bits. */
  lemma StubArrivesIff(regs: seq<nat>, ws: seq<nat>, addr: uint64)
    requires |regs| == 32 && IsStub(ws, addr)
    ensures RunStub(regs, ws) == Some(addr) <==> addr < 0x1_0000_0000_0000
  {
    StubRuns(regs, ws, addr);
    if addr < 0x1_0000_0000_0000 { ModUnique(addr, 0x1_0000_0000_0000, 0, addr); }
  }
}
