/**
 What the references of a loaded object file lead to, read off the bytes of the mapping alone: the
 four bytes at the site, taken as a signed number, point to the byte of the section or to the stub.
 */
module References {
  import opened Basics
  import opened Arith
  import opened LittleEndian
  import opened Loader
  import opened LoaderRuns
  import X86

  /** The offset in the mapping that a patched site refers to: its own, less the addend, and the signed bytes. */
  function Referred(m: seq<byte>, r: Rela): int
    requires r.offset + 4 <= |m|
  {
    r.offset - r.addend + X86.Signed32(m[r.offset], m[r.offset + 1], m[r.offset + 2], m[r.offset + 3])
  }

  /** At offset at there is a jump through the eight bytes in front of it, and they hold addr. */
  ghost predicate JumpsTo(m: seq<byte>, at: int, addr: uint64) {
    8 <= at && at + 6 <= |m| && Le(m[at - 8..at]) == addr && m[at..at + 6] == [0xff, 0x25, 0xf2, 0xff, 0xff, 0xff]
  }

  /** The mapping m with layout l holds these sections, and everything is relocated. */
  ghost predicate Image(o: Object, l: Layout, libs: string -> Option<uint64>, p: Parts, m: seq<byte>) {
    && |m| == l.size && l.textSize == |p.text| <= l.dataAt && WellFormed(o, l.textSize)
    && l.dataAt + |p.data| <= l.rodataAt && l.rodataAt + |p.rodata| <= l.jumpAt <= l.size
    && m[l.dataAt..l.dataAt + |p.data|] == p.data
    && m[l.rodataAt..l.rodataAt + |p.rodata|] == p.rodata
    && (forall j :: 0 <= j < |p.text| && !InSite(o, j) ==> m[j] == p.text[j])
    && (forall i :: 0 <= i < |o.relocations| ==>
          SitePatched(o, l, EnvOf(l, libs), m, i) && StubFilled(o, l, EnvOf(l, libs), m, i))
  }

  lemma LoadedIsImage(o: Object, libs: string -> Option<uint64>, k: nat, p: Parts, r: Outcome)
    requires k < 64 && WellFormed(o, |p.text|) && Alignable(o, p, k) && Parsed(o, libs, k, p, r) && r.Loaded?
    ensures Image(o, r.layout, libs, p, r.mem)
  {
    LoadedImage(o, libs, k, p, r);
    LayFits(o, p, k);
  }

  /** Relocation i patches a reference that no later relocation overlaps, to a symbol in the section of that name. */
  predicate RefersTo(o: Object, i: nat, name: string) {
    && i < |o.relocations| && o.relocations[i].kind in {2, 4} && Disjoint(o, i)
    && var n := o.relocations[i].symbol;
       && n < |o.symbols| && o.symbols[n].shndx != 0 && o.symbols[n].shndx < |o.sections|
       && o.sections[o.symbols[n].shndx].name == name
  }

  /** The same for an external symbol of that name. */
  predicate RefersOut(o: Object, i: nat, name: string) {
    && i < |o.relocations| && o.relocations[i].kind in {2, 4} && Disjoint(o, i)
    && var n := o.relocations[i].symbol;
       n < |o.symbols| && o.symbols[n].shndx == 0 && o.symbols[n].name == name
  }

  /** Relocation r patches byte j of the text. */
  predicate Covers(r: Rela, j: int) {
    r.kind in {2, 4} && r.offset <= j < r.offset + 4
  }

  /** Apart from later relocations means that none of them patches one of the four bytes. */
  lemma DisjointIff(o: Object, i: nat)
    requires i < |o.relocations| && o.relocations[i].kind in {2, 4}
    ensures Disjoint(o, i) <==> forall k, j :: i < k < |o.relocations| && Covers(o.relocations[k], j) ==>
                                               !Covers(o.relocations[i], j)
  {
    var n, at := |o.relocations|, o.relocations[i].offset;
    if !Disjoint(o, i) {
      var k :| i < k < n && Patches(o.relocations[k])
               && !(at + 4 <= o.relocations[k].offset || o.relocations[k].offset + 4 <= at);
      var j := if at < o.relocations[k].offset then o.relocations[k].offset else at;
      assert Covers(o.relocations[k], j) && Covers(o.relocations[i], j);
    } else if k, j :| i < k < n && Covers(o.relocations[k], j) && Covers(o.relocations[i], j) {
      assert Patches(o.relocations[k]);
    }
  }

  /** The distance from site i to the given offset, with the addend, fits in 32 bits. */
  predicate InReach(o: Object, i: nat, at: int)
    requires i < |o.relocations|
  {
    -0x8000_0000 <= at + o.relocations[i].addend - o.relocations[i].offset < 0x8000_0000
  }

  lemma SiteBytes(m: seq<byte>, at: nat, d: int)
    requires at + 4 <= |m| && m[at..at + 4] == X86.Le32(d) && -0x8000_0000 <= d < 0x8000_0000
    ensures X86.Signed32(m[at], m[at + 1], m[at + 2], m[at + 3]) == d
  {
    X86.Le32RoundTrip(d);
    var bs := m[at..at + 4];
    assert bs[0] == m[at] && bs[1] == m[at + 1] && bs[2] == m[at + 2] && bs[3] == m[at + 3];
  }

  /** A patched site refers to its target. */
  lemma SiteRefers(o: Object, l: Layout, env: Env, m: seq<byte>, i: nat)
    requires i < |o.relocations| && o.relocations[i].kind in {2, 4} && Disjoint(o, i) && SitePatched(o, l, env, m, i)
    ensures o.relocations[i].offset + 4 <= |m| && Target(o, l, env, i).Some?
    ensures InReach(o, i, Target(o, l, env, i).value) ==> Referred(m, o.relocations[i]) == Target(o, l, env, i).value
  {
    var rel, at := o.relocations[i], Target(o, l, env, i).value;
    if InReach(o, i, at) { SiteBytes(m, rel.offset, at + rel.addend - rel.offset); }
  }

  lemma InternalTarget(o: Object, l: Layout, libs: string -> Option<uint64>, i: nat, name: string)
    requires RefersTo(o, i, name) && WellFormed(o, l.textSize) && RelaOk(o, l.textSize, i)
    ensures var at := SectionAt(l, name);
            Target(o, l, EnvOf(l, libs), i)
            == if at == None then None else Some(at.value + o.symbols[o.relocations[i].symbol].value)
  {
  }

  /** What reference i leads to, when its section is at base and its bytes are there. */
  lemma LeadsInto(o: Object, l: Layout, libs: string -> Option<uint64>, m: seq<byte>, i: nat, name: string,
                  base: nat, body: seq<byte>)
    requires RefersTo(o, i, name) && SitePatched(o, l, EnvOf(l, libs), m, i) && SectionAt(l, name) == Some(base)
    requires base + |body| <= |m| && m[base..base + |body|] == body
    ensures var v := o.symbols[o.relocations[i].symbol].value;
            && o.relocations[i].offset + 4 <= |m|
            && (InReach(o, i, base + v) ==> Referred(m, o.relocations[i]) == base + v)
            && (v < |body| ==> m[base + v] == body[v])
  {
    SiteRefers(o, l, EnvOf(l, libs), m, i);
    InternalTarget(o, l, libs, i, name);
    var v := o.symbols[o.relocations[i].symbol].value;
    assert v < |body| ==> m[base + v] == m[base..base + |body|][v];
  }

  lemma ImageOfData(o: Object, l: Layout, libs: string -> Option<uint64>, p: Parts, m: seq<byte>, i: nat)
    requires Image(o, l, libs, p, m) && RefersTo(o, i, ".data")
    ensures var v := o.symbols[o.relocations[i].symbol].value;
            && o.relocations[i].offset + 4 <= |m|
            && (InReach(o, i, l.dataAt + v) ==> Referred(m, o.relocations[i]) == l.dataAt + v)
            && (v < |p.data| ==> l.dataAt + v < |m| && m[l.dataAt + v] == p.data[v])
  {
    assert SitePatched(o, l, EnvOf(l, libs), m, i);
    LeadsInto(o, l, libs, m, i, ".data", l.dataAt, p.data);
  }

  lemma ImageOfRodata(o: Object, l: Layout, libs: string -> Option<uint64>, p: Parts, m: seq<byte>, i: nat)
    requires Image(o, l, libs, p, m) && RefersTo(o, i, ".rodata")
    ensures var v := o.symbols[o.relocations[i].symbol].value;
            && o.relocations[i].offset + 4 <= |m|
            && (InReach(o, i, l.rodataAt + v) ==> Referred(m, o.relocations[i]) == l.rodataAt + v)
            && (v < |p.rodata| ==> l.rodataAt + v < |m| && m[l.rodataAt + v] == p.rodata[v])
  {
    assert SitePatched(o, l, EnvOf(l, libs), m, i);
    LeadsInto(o, l, libs, m, i, ".rodata", l.rodataAt, p.rodata);
  }

  lemma ImageOfText(o: Object, l: Layout, libs: string -> Option<uint64>, p: Parts, m: seq<byte>, i: nat)
    requires Image(o, l, libs, p, m) && RefersTo(o, i, ".text")
    ensures var v := o.symbols[o.relocations[i].symbol].value;
            && o.relocations[i].offset + 4 <= |m|
            && (InReach(o, i, v) ==> Referred(m, o.relocations[i]) == v)
            && (v < |p.text| && !InSite(o, v) ==> v < |m| && m[v] == p.text[v])
  {
    assert SitePatched(o, l, EnvOf(l, libs), m, i);
    LeadsInto(o, l, libs, m, i, ".text", 0, []);
  }

  lemma StubBytes(m: seq<byte>, at: nat, addr: uint64)
    requires at + 16 <= |m| && m[at..at + 14] == Stub(addr)
    ensures JumpsTo(m, at + 8, addr)
  {
    Pow64();
    LeOfToLe(addr, 8);
    assert m[at..at + 8] == m[at..at + 14][..8] == Stub(addr)[..8] == ToLe(addr, 8);
    assert m[at + 8..at + 14] == m[at..at + 14][8..] == Stub(addr)[8..] == JMP_THROUGH;
  }

  lemma FilledStub(o: Object, l: Layout, libs: string -> Option<uint64>, m: seq<byte>, i: nat, name: string)
    requires RefersOut(o, i, name) && StubFilled(o, l, EnvOf(l, libs), m, i)
    ensures libs(name).Some? && l.jumpAt <= StubAt(o, l, i) && StubAt(o, l, i) + 16 <= |m|
    ensures JumpsTo(m, StubAt(o, l, i) + 8, libs(name).value)
  {
    StubBytes(m, StubAt(o, l, i), libs(name).value);
  }

  lemma ImageOfStub(o: Object, l: Layout, libs: string -> Option<uint64>, p: Parts, m: seq<byte>, i: nat, name: string)
    requires Image(o, l, libs, p, m) && RefersOut(o, i, name)
    requires l.size <= 0x4000_0000 && -0x4000_0000 <= o.relocations[i].addend <= 0x4000_0000
    ensures o.relocations[i].offset + 4 <= |m| && libs(name).Some?
    ensures l.jumpAt + 8 <= Referred(m, o.relocations[i]) && JumpsTo(m, Referred(m, o.relocations[i]), libs(name).value)
  {
    assert SitePatched(o, l, EnvOf(l, libs), m, i) && StubFilled(o, l, EnvOf(l, libs), m, i);
    SiteRefers(o, l, EnvOf(l, libs), m, i);
    FilledStub(o, l, libs, m, i, name);
    StubIsTarget(o, l, EnvOf(l, libs), i);
  }

  /**
   In a loaded mapping a reference to a symbol of .data leads to the byte of the section that the
   symbol names, and there the mapping holds the section's own byte.
   */
  lemma DataReferenceArrives(o: Object, libs: string -> Option<uint64>, k: nat, p: Parts, r: Outcome, i: nat)
    requires k < 64 && WellFormed(o, |p.text|) && Alignable(o, p, k) && Parsed(o, libs, k, p, r) && r.Loaded?
    requires RefersTo(o, i, ".data")
    ensures var m, at := r.mem, r.layout.dataAt + o.symbols[o.relocations[i].symbol].value;
            && o.relocations[i].offset + 4 <= |m|
            && (InReach(o, i, at) ==> Referred(m, o.relocations[i]) == at)
            && (at - r.layout.dataAt < |p.data| ==> at < |m| && m[at] == p.data[at - r.layout.dataAt])
  {
    LoadedIsImage(o, libs, k, p, r);
    ImageOfData(o, r.layout, libs, p, r.mem, i);
  }

  /** The same for .rodata. */
  lemma RodataReferenceArrives(o: Object, libs: string -> Option<uint64>, k: nat, p: Parts, r: Outcome, i: nat)
    requires k < 64 && WellFormed(o, |p.text|) && Alignable(o, p, k) && Parsed(o, libs, k, p, r) && r.Loaded?
    requires RefersTo(o, i, ".rodata")
    ensures var m, at := r.mem, r.layout.rodataAt + o.symbols[o.relocations[i].symbol].value;
            && o.relocations[i].offset + 4 <= |m|
            && (InReach(o, i, at) ==> Referred(m, o.relocations[i]) == at)
            && (at - r.layout.rodataAt < |p.rodata| ==> at < |m| && m[at] == p.rodata[at - r.layout.rodataAt])
  {
    LoadedIsImage(o, libs, k, p, r);
    ImageOfRodata(o, r.layout, libs, p, r.mem, i);
  }

  /** The same for .text, where the bytes of the sites are patched. */
  lemma TextReferenceArrives(o: Object, libs: string -> Option<uint64>, k: nat, p: Parts, r: Outcome, i: nat)
    requires k < 64 && WellFormed(o, |p.text|) && Alignable(o, p, k) && Parsed(o, libs, k, p, r) && r.Loaded?
    requires RefersTo(o, i, ".text")
    ensures var m, at := r.mem, o.symbols[o.relocations[i].symbol].value;
            && o.relocations[i].offset + 4 <= |m|
            && (InReach(o, i, at) ==> Referred(m, o.relocations[i]) == at)
            && (at < |p.text| && !InSite(o, at) ==> at < |m| && m[at] == p.text[at])
  {
    LoadedIsImage(o, libs, k, p, r);
    ImageOfText(o, r.layout, libs, p, r.mem, i);
  }

  /**
   A reference to an external symbol leads to a jump through the eight bytes in front of it, which
   hold the address of the function of that name.
   */
  lemma ExternalReferenceArrives(o: Object, libs: string -> Option<uint64>, k: nat, p: Parts, r: Outcome, i: nat,
                                 name: string)
    requires k < 64 && WellFormed(o, |p.text|) && Alignable(o, p, k) && Parsed(o, libs, k, p, r) && r.Loaded?
    requires RefersOut(o, i, name)
    requires r.layout.size <= 0x4000_0000 && -0x4000_0000 <= o.relocations[i].addend <= 0x4000_0000
    ensures o.relocations[i].offset + 4 <= |r.mem| && libs(name).Some?
    ensures var at := Referred(r.mem, o.relocations[i]);
            r.layout.jumpAt + 8 <= at && JumpsTo(r.mem, at, libs(name).value)
  {
    LoadedIsImage(o, libs, k, p, r);
    ImageOfStub(o, r.layout, libs, p, r.mem, i, name);
  }

  /** Relocation i has an external symbol that the libraries do not have, or one in another section. */
  predicate Unknown(o: Object, libs: string -> Option<uint64>, textSize: nat, i: nat)
    requires WellFormed(o, textSize) && i < |o.relocations|
  {
    assert RelaOk(o, textSize, i);
    var sym := o.symbols[o.relocations[i].symbol];
    if sym.shndx == 0 then libs(sym.name).None? else o.sections[sym.shndx].name !in {".text", ".data", ".rodata"}
  }

  /** Loading ends with error 8 without relocations, with 2 exactly when one is unknown, and else succeeds. */
  lemma OutcomeIff(o: Object, libs: string -> Option<uint64>, k: nat, p: Parts, r: Outcome)
    requires k < 64 && WellFormed(o, |p.text|) && Alignable(o, p, k) && Parsed(o, libs, k, p, r)
    ensures if o.relocations == [] then r == Exit(8)
            else if exists i :: 0 <= i < |o.relocations| && Unknown(o, libs, |p.text|, i) then r == Exit(2)
            else r.Loaded?
  {
    LayFits(o, p, k);
    var l := Lay(o, p, k);
    forall i | 0 <= i < |o.relocations|
      ensures Unknown(o, libs, |p.text|, i) <==> Target(o, l, EnvOf(l, libs), i).None?
    {
      assert RelaOk(o, l.textSize, i);
    }
  }
}
