/**
 The x86-64 object loader: sections and jump stubs side by side in one mapping, and the
 relocations of .text (section 4.4 of the System V AMD64 ABI).  Addresses are offsets from the base
 of the mapping, which cancels out of every relocation.
 */
module Loader {
  import opened Basics
  import opened Arith
  import opened LittleEndian
  import opened Pages
  import opened Writes
  import X86

  const R_X86_64_PC32 := 2
  const R_X86_64_PLT32 := 4
  const SHN_UNDEF := 0
  const ENOENT := 2
  const ENOEXEC := 8

  datatype Section = Section(name: string, contents: seq<byte>)

  /** A symbol of section 0 is external. */
  datatype Symbol = Symbol(name: string, shndx: nat, value: nat)

  datatype Rela = Rela(offset: nat, symbol: nat, kind: nat, addend: int)

  /** An object file; relocations are those of .rela.text. */
  datatype Object = Object(sections: seq<Section>, symbols: seq<Symbol>, relocations: seq<Rela>)

  /** Offsets of the regions in the mapping: .text at 0, then .data, .rodata and the jump table. */
  datatype Layout = Layout(textSize: nat, dataAt: nat, rodataAt: nat, jumpAt: nat, size: nat)

  // ----- relocations

  /** Relocation i refers to a symbol and a section that exist, and patches four bytes of .text. */
  predicate RelaOk(o: Object, textSize: nat, i: nat)
    requires i < |o.relocations|
  {
    var r := o.relocations[i];
    && r.offset + 4 <= textSize
    && r.symbol < |o.symbols|
    && o.symbols[r.symbol].shndx < |o.sections|
  }

  predicate WellFormed(o: Object, textSize: nat) {
    forall i :: 0 <= i < |o.relocations| ==> RelaOk(o, textSize, i)
  }

  predicate IsExternal(o: Object, i: nat)
    requires i < |o.relocations| && o.relocations[i].symbol < |o.symbols|
  {
    o.symbols[o.relocations[i].symbol].shndx == SHN_UNDEF
  }

  /** The number of external references among the first n relocations. */
  function Externals(o: Object, textSize: nat, n: nat): nat
    requires WellFormed(o, textSize) && n <= |o.relocations|
  {
    if n == 0 then 0
    else
      assert RelaOk(o, textSize, n - 1);
      Externals(o, textSize, n - 1) + if IsExternal(o, n - 1) then 1 else 0
  }

  lemma {:induction false} ExternalsGrow(o: Object, textSize: nat, i: nat, n: nat)
    requires WellFormed(o, textSize) && i <= n <= |o.relocations|
    ensures Externals(o, textSize, i) <= Externals(o, textSize, n) <= Externals(o, textSize, i) + (n - i)
    decreases n
  {
    if i < n { ExternalsGrow(o, textSize, i, n - 1); }
  }

  /** Every region holds its contents, no two of them overlap, and there is a stub for every external reference. */
  ghost predicate Fits(o: Object, l: Layout) {
    && WellFormed(o, l.textSize)
    && l.textSize <= l.dataAt <= l.rodataAt <= l.jumpAt
    && l.jumpAt + 16 * Externals(o, l.textSize, |o.relocations|) <= l.size
  }

  /** section_runtime_base as an offset into the mapping, and lookup_ext_function: what names stand for. */
  datatype Env = Env(sectionAt: string -> Option<nat>, libs: string -> Option<uint64>)

  /** section_runtime_base for a layout. */
  function SectionAt(l: Layout, name: string): Option<nat> {
    if name == ".text" then Some(0)
    else if name == ".data" then Some(l.dataAt)
    else if name == ".rodata" then Some(l.rodataAt)
    else None
  }

  /** The function an external reference is to. */
  function Callee(o: Object, env: Env, i: nat): Option<uint64>
    requires i < |o.relocations| && o.relocations[i].symbol < |o.symbols|
  {
    env.libs(o.symbols[o.relocations[i].symbol].name)
  }

  const JMP_THROUGH: seq<byte> := [0xff, 0x25, 0xf2, 0xff, 0xff, 0xff]

  /** struct ext_jump: the address and jmp *-14(%rip); its two bytes of padding are not written. */
  function Stub(addr: uint64): (bs: seq<byte>)
    ensures |bs| == 14
  {
    ToLe(addr, 8) + JMP_THROUGH
  }

  /** Where the stub of relocation i is, if it is external. */
  function StubAt(o: Object, l: Layout, i: nat): nat
    requires WellFormed(o, l.textSize) && i <= |o.relocations|
  {
    l.jumpAt + 16 * Externals(o, l.textSize, i)
  }

  /** What relocation i refers to, if its function or section is known. */
  function Target(o: Object, l: Layout, env: Env, i: nat): Option<nat>
    requires WellFormed(o, l.textSize) && i < |o.relocations|
  {
    assert RelaOk(o, l.textSize, i);
    var sym := o.symbols[o.relocations[i].symbol];
    if IsExternal(o, i) then
      if Callee(o, env, i).Some? then Some(StubAt(o, l, i) + 8) else None
    else
      match env.sectionAt(o.sections[sym.shndx].name)
      case None => None
      case Some(at) => Some(at + sym.value)
  }

  predicate Patches(r: Rela) {
    r.kind == R_X86_64_PC32 || r.kind == R_X86_64_PLT32
  }

  /**
   The stub that relocation i writes and the site that it patches with S + A - P modulo 2^32; no
   bytes stand for no write.
   */
  function PatchOf(o: Object, l: Layout, env: Env, i: nat): Patch
    requires WellFormed(o, l.textSize) && i < |o.relocations| && Target(o, l, env, i).Some?
  {
    assert RelaOk(o, l.textSize, i);
    var r := o.relocations[i];
    Patch(
      Write(StubAt(o, l, i), if IsExternal(o, i) then Stub(Callee(o, env, i).value) else []),
      Write(r.offset, if Patches(r) then X86.Le32(Target(o, l, env, i).value + r.addend - r.offset) else []))
  }

  predicate ResolvedTo(o: Object, l: Layout, env: Env, n: nat)
    requires WellFormed(o, l.textSize) && n <= |o.relocations|
  {
    forall i :: 0 <= i < n ==> Target(o, l, env, i).Some?
  }

  /** The patches of the first n relocations. */
  function PatchesTo(o: Object, l: Layout, env: Env, n: nat): (ps: seq<Patch>)
    requires WellFormed(o, l.textSize) && n <= |o.relocations| && ResolvedTo(o, l, env, n)
    ensures |ps| == n
  {
    seq(n, i requires 0 <= i < n => PatchOf(o, l, env, i))
  }

  /** Stubs lie in the jump table and sites in .text. */
  lemma PatchRanges(o: Object, l: Layout, env: Env, i: nat)
    requires Fits(o, l) && i < |o.relocations| && Target(o, l, env, i).Some?
    ensures var w := PatchOf(o, l, env, i).stub;
            && w.at == StubAt(o, l, i) <= l.size
            && (w.bytes == [] || (|w.bytes| == 14 && w.at + 16 <= l.size))
    ensures var w := PatchOf(o, l, env, i).site;
            w.at == o.relocations[i].offset && w.at + 4 <= l.textSize
              && (|w.bytes| == if Patches(o.relocations[i]) then 4 else 0)
    ensures Placed(PatchOf(o, l, env, i), l.textSize, l.jumpAt, l.size)
  {
    assert RelaOk(o, l.textSize, i);
    ExternalsGrow(o, l.textSize, i, |o.relocations|);
    ExternalsGrow(o, l.textSize, i + 1, |o.relocations|);
  }

  lemma PatchesArePlaced(o: Object, l: Layout, env: Env, n: nat)
    requires Fits(o, l) && n <= |o.relocations| && ResolvedTo(o, l, env, n)
    ensures AllPlaced(PatchesTo(o, l, env, n), l.textSize, l.jumpAt, l.size)
  {
    var ps := PatchesTo(o, l, env, n);
    forall i | 0 <= i < |ps| ensures Placed(ps[i], l.textSize, l.jumpAt, l.size) { PatchRanges(o, l, env, i); }
  }

  /** Memory after the first n relocations. */
  function RelocateTo(o: Object, l: Layout, env: Env, mem: seq<byte>, n: nat): (r: seq<byte>)
    requires Fits(o, l) && |mem| == l.size && n <= |o.relocations| && ResolvedTo(o, l, env, n)
    ensures |r| == |mem|
  {
    PatchesArePlaced(o, l, env, n);
    Patched(mem, PatchesTo(o, l, env, n), l.textSize, l.jumpAt)
  }

  /** Memory after relocation i alone. */
  function RelocateOnce(o: Object, l: Layout, env: Env, mem: seq<byte>, i: nat): (r: seq<byte>)
    requires Fits(o, l) && |mem| == l.size && i < |o.relocations| && Target(o, l, env, i).Some?
    ensures |r| == |mem|
  {
    PatchRanges(o, l, env, i);
    PatchOnce(mem, PatchOf(o, l, env, i))
  }

  lemma RelocateOneMore(o: Object, l: Layout, env: Env, mem: seq<byte>, n: nat)
    requires Fits(o, l) && |mem| == l.size && n < |o.relocations| && ResolvedTo(o, l, env, n + 1)
    ensures RelocateTo(o, l, env, mem, n + 1) == RelocateOnce(o, l, env, RelocateTo(o, l, env, mem, n), n)
  {
    PatchesArePlaced(o, l, env, n);
    PatchRanges(o, l, env, n);
    PatchesOneMore(o, l, env, n);
    PatchOneMore(mem, PatchesTo(o, l, env, n), PatchOf(o, l, env, n), l.textSize, l.jumpAt);
  }

  lemma PatchesOneMore(o: Object, l: Layout, env: Env, n: nat)
    requires WellFormed(o, l.textSize) && n < |o.relocations| && ResolvedTo(o, l, env, n + 1)
    ensures PatchesTo(o, l, env, n + 1) == PatchesTo(o, l, env, n) + [PatchOf(o, l, env, n)]
  {
  }

  /** Every reference is known, and m is mem with all relocations done. */
  ghost predicate IsRelocated(o: Object, l: Layout, env: Env, mem: seq<byte>, m: seq<byte>) {
    && Fits(o, l) && |mem| == l.size
    && ResolvedTo(o, l, env, |o.relocations|)
    && m == RelocateTo(o, l, env, mem, |o.relocations|)
  }

  // ----- what relocation does

  /** No later relocation patches a byte of the site of relocation i. */
  predicate Disjoint(o: Object, i: nat)
    requires i < |o.relocations|
  {
    forall k :: i < k < |o.relocations| && Patches(o.relocations[k]) ==>
      var a, b := o.relocations[i].offset, o.relocations[k].offset; a + 4 <= b || b + 4 <= a
  }

  lemma SitesAreFree(o: Object, l: Layout, env: Env, ps: seq<Patch>, i: nat)
    requires Fits(o, l) && i < |o.relocations| && Disjoint(o, i)
    requires ResolvedTo(o, l, env, |o.relocations|) && ps == PatchesTo(o, l, env, |o.relocations|)
    ensures forall k :: i < k < |ps| ==> Apart(ps[k].site, ps[i].site)
  {
    PatchRanges(o, l, env, i);
    forall k | i < k < |ps| ensures Apart(ps[k].site, ps[i].site) { PatchRanges(o, l, env, k); }
  }

  lemma SiteHolds(o: Object, l: Layout, env: Env, mem: seq<byte>, m: seq<byte>, i: nat)
    requires IsRelocated(o, l, env, mem, m) && i < |o.relocations| && Disjoint(o, i)
    ensures Target(o, l, env, i).Some?
    ensures var w := PatchOf(o, l, env, i).site; w.at + |w.bytes| <= |m| && m[w.at..w.at + |w.bytes|] == w.bytes
  {
    var ps := PatchesTo(o, l, env, |o.relocations|);
    PatchesArePlaced(o, l, env, |o.relocations|);
    SitesAreFree(o, l, env, ps, i);
    SiteStays(mem, ps, l.textSize, l.jumpAt, i, m, PatchOf(o, l, env, i).site);
  }

  /** Every patched site ends holding S + A - P modulo 2^32. */
  lemma SiteIsPatched(o: Object, l: Layout, env: Env, mem: seq<byte>, m: seq<byte>, i: nat)
    requires IsRelocated(o, l, env, mem, m) && i < |o.relocations| && Patches(o.relocations[i]) && Disjoint(o, i)
    ensures RelaOk(o, l.textSize, i) && o.relocations[i].offset + 4 <= |m| && Target(o, l, env, i).Some?
    ensures var r := o.relocations[i];
            m[r.offset..r.offset + 4] == X86.Le32(Target(o, l, env, i).value + r.addend - r.offset)
  {
    SiteHolds(o, l, env, mem, m, i);
    assert RelaOk(o, l.textSize, i);
  }

  lemma StubsAreApart(o: Object, l: Layout, i: nat, k: nat)
    requires WellFormed(o, l.textSize) && i < k < |o.relocations|
    requires RelaOk(o, l.textSize, i) && IsExternal(o, i)
    ensures StubAt(o, l, i) + 16 <= StubAt(o, l, k)
  {
    ExternalsGrow(o, l.textSize, i + 1, k);
  }

  lemma StubsAreFree(o: Object, l: Layout, env: Env, ps: seq<Patch>, i: nat)
    requires Fits(o, l) && i < |o.relocations| && RelaOk(o, l.textSize, i) && IsExternal(o, i)
    requires ResolvedTo(o, l, env, |o.relocations|) && ps == PatchesTo(o, l, env, |o.relocations|)
    ensures forall k :: i < k < |ps| ==> Apart(ps[k].stub, ps[i].stub)
  {
    PatchRanges(o, l, env, i);
    forall k | i < k < |ps| ensures Apart(ps[k].stub, ps[i].stub) {
      PatchRanges(o, l, env, k);
      StubsAreApart(o, l, i, k);
    }
  }

  lemma StubHolds(o: Object, l: Layout, env: Env, mem: seq<byte>, m: seq<byte>, i: nat)
    requires IsRelocated(o, l, env, mem, m) && i < |o.relocations|
    requires RelaOk(o, l.textSize, i) && IsExternal(o, i)
    ensures Target(o, l, env, i).Some?
    ensures var w := PatchOf(o, l, env, i).stub; w.at + |w.bytes| <= |m| && m[w.at..w.at + |w.bytes|] == w.bytes
  {
    var ps := PatchesTo(o, l, env, |o.relocations|);
    PatchesArePlaced(o, l, env, |o.relocations|);
    StubsAreFree(o, l, env, ps, i);
    StubStays(mem, ps, l.textSize, l.jumpAt, i, m, PatchOf(o, l, env, i).stub);
  }

  /** Each external reference has a stub of its own, in the pages allotted to stubs, filled in with its function. */
  lemma StubIsFilled(o: Object, l: Layout, env: Env, mem: seq<byte>, m: seq<byte>, i: nat)
    requires IsRelocated(o, l, env, mem, m) && i < |o.relocations|
    requires RelaOk(o, l.textSize, i) && IsExternal(o, i)
    ensures Callee(o, env, i).Some?
    ensures l.jumpAt <= StubAt(o, l, i) && StubAt(o, l, i) + 16 <= |m|
    ensures m[StubAt(o, l, i)..StubAt(o, l, i) + 14] == Stub(Callee(o, env, i).value)
  {
    StubHolds(o, l, env, mem, m, i);
    PatchRanges(o, l, env, i);
  }

  /** A byte of a site that some relocation patches. */
  predicate InSite(o: Object, j: int) {
    exists i :: 0 <= i < |o.relocations| && Patches(o.relocations[i])
      && o.relocations[i].offset <= j < o.relocations[i].offset + 4
  }

  lemma SitesSpare(o: Object, l: Layout, env: Env, ps: seq<Patch>, at: nat, len: nat)
    requires Fits(o, l) && ResolvedTo(o, l, env, |o.relocations|) && ps == PatchesTo(o, l, env, |o.relocations|)
    requires forall j :: at <= j < at + len ==> !InSite(o, j)
    ensures forall i :: 0 <= i < |ps| ==> Spares(ps[i].site, at, len)
  {
    forall i | 0 <= i < |ps| ensures Spares(ps[i].site, at, len) {
      PatchRanges(o, l, env, i);
      var j := if ps[i].site.at >= at then ps[i].site.at else at;
      assert at <= j < at + len ==> !InSite(o, j);
    }
  }

  /** Below the jump table, every byte outside the patched sites is as it was. */
  lemma OtherBytesAreKept(o: Object, l: Layout, env: Env, mem: seq<byte>, m: seq<byte>, at: nat, len: nat)
    requires IsRelocated(o, l, env, mem, m) && at + len <= l.jumpAt
    requires forall j :: at <= j < at + len ==> !InSite(o, j)
    ensures |m| == |mem| && m[at..at + len] == mem[at..at + len]
  {
    var ps := PatchesTo(o, l, env, |o.relocations|);
    PatchesArePlaced(o, l, env, |o.relocations|);
    SitesSpare(o, l, env, ps, at, len);
    OthersStay(mem, ps, l.textSize, l.jumpAt, at, len);
  }

  // ----- running the patched code

  /** jmp *disp(%rip): the address it jumps to, read from memory. */
  function JmpThrough(mem: seq<byte>, at: int): Option<nat> {
    if at < 0 || at + 6 > |mem| || mem[at] != 0xff || mem[at + 1] != 0x25 then None
    else
      var slot := at + 6 + X86.Signed32(mem[at + 2], mem[at + 3], mem[at + 4], mem[at + 5]);
      if 0 <= slot && slot + 8 <= |mem| then Some(Le(mem[slot..slot + 8])) else None
  }

  lemma JmpThroughSlot(mem: seq<byte>, at: nat)
    requires at + 14 <= |mem| && mem[at + 8..at + 14] == JMP_THROUGH
    ensures JmpThrough(mem, at + 8) == Some(Le(mem[at..at + 8]))
  {
    forall k | 0 <= k < 6 ensures mem[at + 8 + k] == JMP_THROUGH[k] {
      assert mem[at + 8..at + 14][k] == mem[at + 8 + k];
    }
    assert X86.Signed32(0xf2, 0xff, 0xff, 0xff) == -14;
  }

  lemma StubJumps(mem: seq<byte>, at: nat, addr: uint64)
    requires at + 14 <= |mem| && mem[at..at + 14] == Stub(addr)
    ensures JmpThrough(mem, at + 8) == Some(addr)
  {
    Pow64();
    LeOfToLe(addr, 8);
    assert mem[at..at + 8] == mem[at..at + 14][..8] == Stub(addr)[..8] == ToLe(addr, 8);
    assert mem[at + 8..at + 14] == mem[at..at + 14][8..] == Stub(addr)[8..] == JMP_THROUGH;
    JmpThroughSlot(mem, at);
  }

  lemma CallOperand(mem: seq<byte>, c: X86.Cpu, site: nat, bs: seq<byte>)
    requires 1 <= site && site + 4 <= |mem| && c.ip == site - 1 && mem[site - 1] == X86.CALL
    requires |bs| == 4 && mem[site..site + 4] == bs
    ensures X86.Step(mem, c).Some?
    ensures X86.Step(mem, c).value.ip == site + 4 + X86.Signed32(bs[0], bs[1], bs[2], bs[3])
    ensures X86.Step(mem, c).value.stack == c.stack + [site + 4]
  {
    forall k | 0 <= k < 4 ensures mem[site + k] == bs[k] { assert mem[site..site + 4][k] == mem[site + k]; }
  }

  /** The operand read back is the displacement exactly when that fits in 32 bits. */
  lemma OperandIff(d: int)
    ensures var b := X86.Le32(d); X86.Signed32(b[0], b[1], b[2], b[3]) == d <==> -0x8000_0000 <= d < 0x8000_0000
  {
    if -0x8000_0000 <= d < 0x8000_0000 { X86.Le32RoundTrip(d); }
  }

  /** Relocated memory, and a processor about to execute the call at site i, which has addend -4. */
  ghost predicate AtCall(o: Object, l: Layout, env: Env, mem: seq<byte>, m: seq<byte>, i: nat, c: X86.Cpu) {
    && IsRelocated(o, l, env, mem, m) && i < |o.relocations|
    && Patches(o.relocations[i]) && Disjoint(o, i) && o.relocations[i].addend == -4
    && 1 <= o.relocations[i].offset <= |m|
    && c.ip == o.relocations[i].offset - 1 && m[c.ip] == X86.CALL
  }

  /**
   A patched call lands on its target, in its section or in the jump table, exactly when the distance
   fits in 32 bits.
   */
  lemma CallArrivesIff(o: Object, l: Layout, env: Env, mem: seq<byte>, m: seq<byte>, i: nat, c: X86.Cpu)
    requires AtCall(o, l, env, mem, m, i, c)
    ensures Target(o, l, env, i).Some? && X86.Step(m, c).Some?
    ensures var to := Target(o, l, env, i).value;
            X86.Step(m, c).value.ip == to <==> -0x8000_0000 <= to - 4 - o.relocations[i].offset < 0x8000_0000
  {
    SiteIsPatched(o, l, env, mem, m, i);
    var site := o.relocations[i].offset;
    var d := Target(o, l, env, i).value - 4 - site;
    CallOperand(m, c, site, X86.Le32(d));
    OperandIff(d);
  }

  lemma FilledStubJumps(o: Object, l: Layout, env: Env, m: seq<byte>, i: nat)
    requires WellFormed(o, l.textSize) && i < |o.relocations| && RelaOk(o, l.textSize, i)
    requires Callee(o, env, i).Some? && StubAt(o, l, i) + 16 <= |m|
    requires m[StubAt(o, l, i)..StubAt(o, l, i) + 14] == Stub(Callee(o, env, i).value)
    ensures JmpThrough(m, StubAt(o, l, i) + 8) == Callee(o, env, i)
  {
    StubJumps(m, StubAt(o, l, i), Callee(o, env, i).value);
  }

  lemma StubIsTarget(o: Object, l: Layout, env: Env, i: nat)
    requires WellFormed(o, l.textSize) && i < |o.relocations| && RelaOk(o, l.textSize, i)
    requires IsExternal(o, i) && Callee(o, env, i).Some?
    ensures Target(o, l, env, i) == Some(StubAt(o, l, i) + 8)
  {
  }

  /** How far the stub of relocation i is from the end of its call. */
  function StubDistance(o: Object, l: Layout, i: nat): int
    requires WellFormed(o, l.textSize) && i < |o.relocations|
  {
    StubAt(o, l, i) + 4 - o.relocations[i].offset
  }

  /** Stubs come after the text, and in a mapping of up to 2 GiB nothing is out of reach. */
  lemma StubDistanceBound(o: Object, l: Layout, env: Env, mem: seq<byte>, m: seq<byte>, i: nat)
    requires IsRelocated(o, l, env, mem, m) && i < |o.relocations|
    requires RelaOk(o, l.textSize, i) && IsExternal(o, i)
    ensures 0 <= StubDistance(o, l, i) && (l.size <= 0x8000_0000 ==> StubDistance(o, l, i) < 0x8000_0000)
  {
    StubIsFilled(o, l, env, mem, m, i);
  }

  /** What is written in the stub jumps to the function. */
  lemma StubGoesToCallee(o: Object, l: Layout, env: Env, mem: seq<byte>, m: seq<byte>, i: nat)
    requires IsRelocated(o, l, env, mem, m) && i < |o.relocations|
    requires RelaOk(o, l.textSize, i) && IsExternal(o, i)
    ensures Callee(o, env, i).Some? && JmpThrough(m, StubAt(o, l, i) + 8) == Callee(o, env, i)
  {
    StubIsFilled(o, l, env, mem, m, i);
    FilledStubJumps(o, l, env, m, i);
  }

  /** The call reaches the stub exactly when the distance fits. */
  lemma CallReachesStubIff(o: Object, l: Layout, env: Env, mem: seq<byte>, m: seq<byte>, i: nat, c: X86.Cpu)
    requires AtCall(o, l, env, mem, m, i, c)
    requires RelaOk(o, l.textSize, i) && IsExternal(o, i) && Callee(o, env, i).Some?
    ensures X86.Step(m, c).Some?
    ensures X86.Step(m, c).value.ip == StubAt(o, l, i) + 8
            <==> -0x8000_0000 <= StubDistance(o, l, i) < 0x8000_0000
  {
    CallArrivesIff(o, l, env, mem, m, i, c);
    StubIsTarget(o, l, env, i);
  }

  /**
   Calling an external function goes to its stub, and from there to the function, exactly as long as
   the stub is within reach of the call; in a mapping of up to 2 GiB it always is.
   */
  lemma ExternalCallArrives(o: Object, l: Layout, env: Env, mem: seq<byte>, m: seq<byte>, i: nat, c: X86.Cpu)
    requires AtCall(o, l, env, mem, m, i, c)
    requires RelaOk(o, l.textSize, i) && IsExternal(o, i)
    ensures X86.Step(m, c).Some? && Callee(o, env, i).Some?
    ensures X86.Step(m, c).value.ip == StubAt(o, l, i) + 8 <==> StubDistance(o, l, i) < 0x8000_0000
    ensures JmpThrough(m, StubAt(o, l, i) + 8) == Callee(o, env, i)
    ensures l.size <= 0x8000_0000 ==> X86.Step(m, c).value.ip == StubAt(o, l, i) + 8
  {
    StubGoesToCallee(o, l, env, mem, m, i);
    CallReachesStubIff(o, l, env, mem, m, i, c);
    StubDistanceBound(o, l, env, mem, m, i);
  }

  // ----- the layout

  /** The regions one after the other, each of a size rounded up to whole pages. */
  function LayoutOf(text: nat, a: nat, b: nat, c: nat, d: nat): Layout {
    Layout(text, a, a + b, a + b + c, a + b + c + d)
  }

  /** r is n rounded up to whole pages of p bytes. */
  predicate IsRounded(n: nat, p: nat, r: nat)
    requires p > 0
  {
    n <= r < n + p && r % p == 0
  }

  /** Every region starts on a page and has room for its contents before the next one. */
  lemma RegionsAreApart(p: nat, text: nat, data: nat, rodata: nat, stubs: nat, a: nat, b: nat, c: nat, d: nat)
    requires p > 0 && IsRounded(text, p, a) && IsRounded(data, p, b) && IsRounded(rodata, p, c)
             && IsRounded(stubs, p, d)
    ensures var l := LayoutOf(text, a, b, c, d);
            && text <= l.dataAt && l.dataAt + data <= l.rodataAt && l.rodataAt + rodata <= l.jumpAt
            && l.jumpAt + stubs <= l.size < text + data + rodata + stubs + 4 * p
            && l.dataAt % p == 0 && l.rodataAt % p == 0 && l.jumpAt % p == 0 && l.size % p == 0
  {
    AllMultiples(p, a, b, c, d);
  }

  lemma Rounds(n: nat, k: nat, r: nat)
    requires k < 64 && n + Pow2(k) <= TWO64 && r == PageAlign(n, k)
    ensures IsRounded(n, Pow2(k), r)
  {
    PageAlignIsLeast(n, k);
  }

  lemma AllMultiples(p: nat, a: nat, b: nat, c: nat, d: nat)
    requires p > 0 && a % p == 0 && b % p == 0 && c % p == 0 && d % p == 0
    ensures (a + b) % p == 0 && (a + b + c) % p == 0 && (a + b + c + d) % p == 0
  {
    SumOfMultiples(a, b, p);
    SumOfMultiples(a + b, c, p);
    SumOfMultiples(a + b + c, d, p);
  }

  lemma SumOfMultiples(a: nat, b: nat, p: nat)
    requires p > 0 && a % p == 0 && b % p == 0
    ensures (a + b) % p == 0
  {
    assert a == a / p * p && b == b / p * p;
    assert a + b == (a / p + b / p) * p;
    ModUnique(a + b, p, a / p + b / p, 0);
  }

  /** The mapping before relocation: the three sections copied into zero-filled memory. */
  function Initial(l: Layout, text: seq<byte>, data: seq<byte>, rodata: seq<byte>): (r: seq<byte>)
    requires |text| <= l.dataAt && l.dataAt + |data| <= l.rodataAt && l.rodataAt + |rodata| <= l.jumpAt <= l.size
    ensures |r| == l.size
    ensures r[..|text|] == text
    ensures r[l.dataAt..l.dataAt + |data|] == data
    ensures r[l.rodataAt..l.rodataAt + |rodata|] == rodata
  {
    Stored(Stored(Stored(seq(l.size, _ => 0), 0, text), l.dataAt, data), l.rodataAt, rodata)
  }

  /** .data and .rodata are the file's, and so is every byte of .text outside the patched sites. */
  lemma SectionsAreLoaded(o: Object, l: Layout, env: Env, text: seq<byte>, data: seq<byte>, rodata: seq<byte>,
                          m: seq<byte>)
    requires |text| == l.textSize
    requires |text| <= l.dataAt && l.dataAt + |data| <= l.rodataAt && l.rodataAt + |rodata| <= l.jumpAt <= l.size
    requires IsRelocated(o, l, env, Initial(l, text, data, rodata), m)
    ensures m[l.dataAt..l.dataAt + |data|] == data
    ensures m[l.rodataAt..l.rodataAt + |rodata|] == rodata
    ensures forall j :: 0 <= j < |text| && !InSite(o, j) ==> m[j] == text[j]
  {
    var mem := Initial(l, text, data, rodata);
    forall j: nat | j >= l.textSize ensures !InSite(o, j) { SitesAreInText(o, l, j); }
    OtherBytesAreKept(o, l, env, mem, m, l.dataAt, |data|);
    OtherBytesAreKept(o, l, env, mem, m, l.rodataAt, |rodata|);
    TextIsKept(o, l, env, mem, m, text);
  }

  lemma TextIsKept(o: Object, l: Layout, env: Env, mem: seq<byte>, m: seq<byte>, text: seq<byte>)
    requires IsRelocated(o, l, env, mem, m) && |text| == l.textSize && mem[..|text|] == text
    ensures |text| <= |m| && forall j :: 0 <= j < |text| && !InSite(o, j) ==> m[j] == text[j]
  {
    forall j | 0 <= j < |text| && !InSite(o, j) ensures m[j] == text[j] { TextByteIsKept(o, l, env, mem, m, text, j); }
  }

  lemma TextByteIsKept(o: Object, l: Layout, env: Env, mem: seq<byte>, m: seq<byte>, text: seq<byte>, j: nat)
    requires IsRelocated(o, l, env, mem, m) && |text| == l.textSize && mem[..|text|] == text
    requires j < |text| && !InSite(o, j)
    ensures m[j] == text[j]
  {
    OtherBytesAreKept(o, l, env, mem, m, j, 1);
    assert m[j] == m[j..j + 1][0] == mem[j..j + 1][0] == mem[j] == mem[..|text|][j];
  }

  lemma SitesAreInText(o: Object, l: Layout, j: nat)
    requires Fits(o, l) && j >= l.textSize
    ensures !InSite(o, j)
  {
    forall i | 0 <= i < |o.relocations| ensures o.relocations[i].offset + 4 <= j { assert RelaOk(o, l.textSize, i); }
  }
}
