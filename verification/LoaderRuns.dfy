/** The loops of the x86-64 loader: section lookup, counting, relocating, and parse_obj as a whole. */
module LoaderRuns {
  import opened Basics
  import opened Arith
  import opened LittleEndian
  import opened Pages
  import opened Loader
  import X86

  predicate Named(sections: seq<Section>, name: string, i: nat)
    requires i < |sections|
  {
    sections[i].name == name && |sections[i].contents| > 0
  }

  /** r is the first section of that name that is not empty. */
  ghost predicate IsLookup(sections: seq<Section>, name: string, r: Option<nat>) {
    match r
    case None => forall i :: 0 <= i < |sections| ==> !Named(sections, name, i)
    case Some(k) => k < |sections| && Named(sections, name, k) && forall i :: 0 <= i < k ==> !Named(sections, name, i)
  }

  method LookupSection(sections: seq<Section>, name: string) returns (r: Option<nat>)
    ensures IsLookup(sections, name, r)
  {
    for i := 0 to |sections|
      invariant forall k :: 0 <= k < i ==> !Named(sections, name, k)
    {
      if sections[i].name == name && |sections[i].contents| > 0 {
        return Some(i);
      }
    }
    return None;
  }

  method CountExternalSymbols(o: Object, ghost textSize: nat) returns (n: nat)
    requires WellFormed(o, textSize)
    ensures n == Externals(o, textSize, |o.relocations|)
  {
    n := 0;
    for i := 0 to |o.relocations|
      invariant n == Externals(o, textSize, i)
    {
      assert RelaOk(o, textSize, i);
      if o.symbols[o.relocations[i].symbol].shndx == SHN_UNDEF {
        n := n + 1;
      }
    }
  }

  /** jumptable[jumpIdx].addr and .instr. */
  method StoreStub(mem: array<byte>, at: nat, addr: seq<byte>)
    requires |addr| == 8 && at + 14 <= mem.Length
    modifies mem
    ensures mem[..] == Stored(old(mem[..]), at, addr + JMP_THROUGH)
  {
    StoredTwice(mem[..], at, addr, JMP_THROUGH);
    Store(mem, at, addr);
    Store(mem, at + 8, [0xff, 0x25, 0xf2, 0xff, 0xff, 0xff]);
  }

  /** The stub of relocation i, if it has one, has been written. */
  ghost predicate StubWritten(o: Object, l: Layout, env: Env, was: seq<byte>, i: nat, now: seq<byte>)
    requires WellFormed(o, l.textSize) && i < |o.relocations| && Target(o, l, env, i).Some?
  {
    var w := PatchOf(o, l, env, i).stub;
    w.at + |w.bytes| <= |was| && now == Stored(was, w.at, w.bytes)
  }

  /** The address of the symbol of relocation i; for an external one its stub is filled in first. */
  method SymbolAddress(o: Object, l: Layout, env: Env, mem: array<byte>, i: nat, jumpIdx: nat)
    returns (address: Option<nat>)
    requires Fits(o, l) && mem.Length == l.size && i < |o.relocations| && RelaOk(o, l.textSize, i)
    requires jumpIdx == Externals(o, l.textSize, i)
    modifies mem
    ensures address == Target(o, l, env, i)
    ensures address.Some? ==> StubWritten(o, l, env, old(mem[..]), i, mem[..])
  {
    var sym := o.symbols[o.relocations[i].symbol];
    if Target(o, l, env, i).Some? { PatchRanges(o, l, env, i); }
    if sym.shndx == SHN_UNDEF {
      var addr := env.libs(sym.name);
      if addr.None? {
        return None;
      }
      var at := l.jumpAt + 16 * jumpIdx;
      StoreStub(mem, at, ToLe(addr.value, 8));
      return Some(at + 8);
    } else {
      var at := env.sectionAt(o.sections[sym.shndx].name);
      return if at.Some? then Some(at.value + sym.value) else None;
    }
  }

  /** The switch on the relocation type. */
  method PatchSite(r: Rela, mem: array<byte>, symbolAddress: nat)
    requires r.offset + 4 <= mem.Length
    modifies mem
    ensures mem[..]
            == Stored(old(mem[..]), r.offset, if Patches(r) then X86.Le32(symbolAddress + r.addend - r.offset) else [])
  {
    if r.kind == R_X86_64_PC32 || r.kind == R_X86_64_PLT32 {
      Store(mem, r.offset, X86.Le32(symbolAddress + r.addend - r.offset));
    } else {
      assert mem[..] == Stored(mem[..], r.offset, []);
    }
  }

  /** The stub, then the site. */
  lemma OnceIsTwoWrites(o: Object, l: Layout, env: Env, was: seq<byte>, i: nat, stubbed: seq<byte>, now: seq<byte>)
    requires Fits(o, l) && |was| == l.size && i < |o.relocations| && Target(o, l, env, i).Some?
    requires StubWritten(o, l, env, was, i, stubbed)
    requires var r, to := o.relocations[i], Target(o, l, env, i).value;
             r.offset + 4 <= |was|
             && now == Stored(stubbed, r.offset, if Patches(r) then X86.Le32(to + r.addend - r.offset) else [])
    ensures now == RelocateOnce(o, l, env, was, i)
  {
  }

  /** One turn of the loop; false is exit(ENOENT). */
  method RelocateOne(o: Object, l: Layout, env: Env, mem: array<byte>, i: nat, jumpIdx: nat)
    returns (ok: bool, next: nat)
    requires Fits(o, l) && mem.Length == l.size && i < |o.relocations| && jumpIdx == Externals(o, l.textSize, i)
    modifies mem
    ensures ok <==> Target(o, l, env, i).Some?
    ensures ok ==> mem[..] == RelocateOnce(o, l, env, old(mem[..]), i)
    ensures next == Externals(o, l.textSize, i + 1)
  {
    assert RelaOk(o, l.textSize, i);
    var r := o.relocations[i];
    next := if o.symbols[r.symbol].shndx == SHN_UNDEF then jumpIdx + 1 else jumpIdx;
    var symbolAddress := SymbolAddress(o, l, env, mem, i, jumpIdx);
    if symbolAddress.None? {
      return false, next;
    }
    ghost var stubbed := mem[..];
    PatchSite(r, mem, symbolAddress.value);
    OnceIsTwoWrites(o, l, env, old(mem[..]), i, stubbed, mem[..]);
    ok := true;
  }

  method DoTextRelocations(o: Object, l: Layout, env: Env, mem: array<byte>) returns (ok: bool)
    requires Fits(o, l) && mem.Length == l.size
    modifies mem
    ensures ok <==> ResolvedTo(o, l, env, |o.relocations|)
    ensures ok ==> IsRelocated(o, l, env, old(mem[..]), mem[..])
  {
    ghost var was := mem[..];
    var jumpIdx := 0;
    NothingRelocated(o, l, env, was);
    for i := 0 to |o.relocations|
      invariant jumpIdx == Externals(o, l.textSize, i)
      invariant ResolvedTo(o, l, env, i)
      invariant mem[..] == RelocateTo(o, l, env, was, i)
    {
      ok, jumpIdx := RelocateOne(o, l, env, mem, i, jumpIdx);
      if !ok {
        return;
      }
      RelocateOneMore(o, l, env, was, i);
    }
    ok := true;
  }

  lemma NothingRelocated(o: Object, l: Layout, env: Env, mem: seq<byte>)
    requires Fits(o, l) && |mem| == l.size
    ensures RelocateTo(o, l, env, mem, 0) == mem
  {
    PatchesArePlaced(o, l, env, 0);
    assert PatchesTo(o, l, env, 0) == [];
  }

  datatype Outcome = Exit(code: nat) | Loaded(layout: Layout, mem: seq<byte>)

  /** The three sections that are loaded. */
  datatype Parts = Parts(text: seq<byte>, data: seq<byte>, rodata: seq<byte>)

  ghost predicate IsPart(o: Object, name: string, contents: seq<byte>) {
    exists k: nat :: k < |o.sections| && IsLookup(o.sections, name, Some(k)) && contents == o.sections[k].contents
  }

  ghost predicate ArePartsOf(o: Object, p: Parts) {
    IsPart(o, ".text", p.text) && IsPart(o, ".data", p.data) && IsPart(o, ".rodata", p.rodata)
  }

  /** Sizes that page_align can round up without passing 2^64. */
  predicate Alignable(o: Object, p: Parts, k: nat) {
    && |p.text| + Pow2(k) <= TWO64 && |p.data| + Pow2(k) <= TWO64 && |p.rodata| + Pow2(k) <= TWO64
    && 16 * |o.relocations| + Pow2(k) <= TWO64
  }

  function Lay(o: Object, p: Parts, k: nat): Layout
    requires k < 64 && WellFormed(o, |p.text|)
  {
    LayoutOf(|p.text|, PageAlign(|p.text|, k), PageAlign(|p.data|, k), PageAlign(|p.rodata|, k),
             PageAlign(16 * Externals(o, |p.text|, |o.relocations|), k))
  }

  lemma LayFits(o: Object, p: Parts, k: nat)
    requires k < 64 && WellFormed(o, |p.text|) && Alignable(o, p, k)
    ensures var l := Lay(o, p, k);
            Fits(o, l) && l.textSize == |p.text| <= l.dataAt
            && l.dataAt + |p.data| <= l.rodataAt && l.rodataAt + |p.rodata| <= l.jumpAt
  {
    ExternalsGrow(o, |p.text|, 0, |o.relocations|);
    var stubs := 16 * Externals(o, |p.text|, |o.relocations|);
    var a, b, c, d := PageAlign(|p.text|, k), PageAlign(|p.data|, k), PageAlign(|p.rodata|, k), PageAlign(stubs, k);
    Rounds(|p.text|, k, a);
    Rounds(|p.data|, k, b);
    Rounds(|p.rodata|, k, c);
    Rounds(stubs, k, d);
    RegionsAreApart(Pow2(k), |p.text|, |p.data|, |p.rodata|, stubs, a, b, c, d);
  }

  /** The lookups of parse_obj: the first of .text, .data and .rodata that is missing ends it. */
  method FindParts(o: Object) returns (r: Option<Parts>)
    ensures r.Some? <==> exists p :: ArePartsOf(o, p)
    ensures r.Some? ==> ArePartsOf(o, r.value)
  {
    var text := LookupSection(o.sections, ".text");
    if text.None? {
      return None;
    }
    var data := LookupSection(o.sections, ".data");
    if data.None? {
      return None;
    }
    var rodata := LookupSection(o.sections, ".rodata");
    if rodata.None? {
      return None;
    }
    var p := Parts(o.sections[text.value].contents, o.sections[data.value].contents, o.sections[rodata.value].contents);
    assert IsPart(o, ".text", p.text) && IsPart(o, ".data", p.data) && IsPart(o, ".rodata", p.rodata);
    assert ArePartsOf(o, p);
    return Some(p);
  }

  lemma PartsAreUnique(o: Object, p: Parts, q: Parts)
    requires ArePartsOf(o, p) && ArePartsOf(o, q)
    ensures p == q
  {
    OnePart(o, ".text", p.text, q.text);
    OnePart(o, ".data", p.data, q.data);
    OnePart(o, ".rodata", p.rodata, q.rodata);
  }

  lemma OnePart(o: Object, name: string, a: seq<byte>, b: seq<byte>)
    requires IsPart(o, name, a) && IsPart(o, name, b)
    ensures a == b
  {
    var i: nat :| i < |o.sections| && IsLookup(o.sections, name, Some(i)) && a == o.sections[i].contents;
    var j: nat :| j < |o.sections| && IsLookup(o.sections, name, Some(j)) && b == o.sections[j].contents;
    assert Named(o.sections, name, i) && Named(o.sections, name, j);
  }

  function EnvOf(l: Layout, libs: string -> Option<uint64>): Env {
    Env(name => SectionAt(l, name), libs)
  }

  /** What the caller gets: an exit code, or the relocated mapping. */
  ghost predicate Parsed(o: Object, libs: string -> Option<uint64>, k: nat, p: Parts, r: Outcome)
    requires k < 64 && WellFormed(o, |p.text|) && Alignable(o, p, k)
  {
    LayFits(o, p, k);
    var l := Lay(o, p, k);
    var env := EnvOf(l, libs);
    if o.relocations == [] then r == Exit(8)
    else if !ResolvedTo(o, l, env, |o.relocations|) then r == Exit(2)
    else r.Loaded? && r.layout == l && IsRelocated(o, l, env, Initial(l, p.text, p.data, p.rodata), r.mem)
  }

  /** The three copies. */
  method MapSections(l: Layout, p: Parts) returns (mem: array<byte>)
    requires |p.text| <= l.dataAt && l.dataAt + |p.data| <= l.rodataAt && l.rodataAt + |p.rodata| <= l.jumpAt <= l.size
    ensures fresh(mem) && mem[..] == Initial(l, p.text, p.data, p.rodata)
  {
    mem := new byte[l.size](_ => 0);
    assert mem[..] == seq(l.size, _ => 0);
    Store(mem, 0, p.text);
    Store(mem, l.dataAt, p.data);
    Store(mem, l.rodataAt, p.rodata);
  }

  /** count_external_symbols, the mapping, the copies and the relocations. */
  method LoadParts(o: Object, libs: string -> Option<uint64>, k: nat, p: Parts) returns (r: Outcome)
    requires k < 64 && WellFormed(o, |p.text|) && Alignable(o, p, k)
    ensures Parsed(o, libs, k, p, r)
  {
    LayFits(o, p, k);
    if o.relocations == [] {
      return Exit(ENOEXEC);
    }
    var externals := CountExternalSymbols(o, |p.text|);
    var l := LayoutOf(|p.text|, PageAlign(|p.text|, k), PageAlign(|p.data|, k), PageAlign(|p.rodata|, k),
                      PageAlign(16 * externals, k));
    var mem := MapSections(l, p);
    var ok := DoTextRelocations(o, l, EnvOf(l, libs), mem);
    if !ok {
      return Exit(ENOENT);
    }
    return Loaded(l, mem[..]);
  }

  method ParseObj(o: Object, libs: string -> Option<uint64>, k: nat) returns (r: Outcome)
    requires k < 64 && forall p :: ArePartsOf(o, p) ==> WellFormed(o, |p.text|) && Alignable(o, p, k)
    ensures (forall p :: !ArePartsOf(o, p)) ==> r == Exit(8)
    ensures forall p :: ArePartsOf(o, p) ==> Parsed(o, libs, k, p, r)
  {
    var parts := FindParts(o);
    if parts.None? {
      return Exit(ENOEXEC);
    }
    r := LoadParts(o, libs, k, parts.value);
    forall p | ArePartsOf(o, p) ensures Parsed(o, libs, k, p, r) { PartsAreUnique(o, p, parts.value); }
  }

  /** The site of relocation i, unless a later one overlaps it, holds S + A - P modulo 2^32. */
  ghost predicate SitePatched(o: Object, l: Layout, env: Env, m: seq<byte>, i: nat)
    requires i < |o.relocations|
  {
    var r := o.relocations[i];
    && WellFormed(o, l.textSize) && RelaOk(o, l.textSize, i)
    && (Patches(r) && Disjoint(o, i) ==>
          && r.offset + 4 <= |m| && Target(o, l, env, i).Some?
          && m[r.offset..r.offset + 4] == X86.Le32(Target(o, l, env, i).value + r.addend - r.offset))
  }

  /** If relocation i refers to an external function, its stub holds the function and the jump to it. */
  ghost predicate StubFilled(o: Object, l: Layout, env: Env, m: seq<byte>, i: nat)
    requires i < |o.relocations|
  {
    && WellFormed(o, l.textSize) && RelaOk(o, l.textSize, i)
    && (IsExternal(o, i) ==>
          var at := StubAt(o, l, i);
          && l.jumpAt <= at && at + 16 <= |m| && Callee(o, env, i).Some?
          && m[at..at + 14] == Stub(Callee(o, env, i).value))
  }

  lemma RelocationDone(o: Object, l: Layout, env: Env, mem: seq<byte>, m: seq<byte>, i: nat)
    requires IsRelocated(o, l, env, mem, m) && i < |o.relocations|
    ensures SitePatched(o, l, env, m, i) && StubFilled(o, l, env, m, i)
  {
    assert RelaOk(o, l.textSize, i);
    if Patches(o.relocations[i]) && Disjoint(o, i) { SiteIsPatched(o, l, env, mem, m, i); }
    if IsExternal(o, i) { StubIsFilled(o, l, env, mem, m, i); }
  }

  /** A loaded mapping, byte by byte: the sections of the file, the patched sites and the filled stubs. */
  lemma LoadedImage(o: Object, libs: string -> Option<uint64>, k: nat, p: Parts, r: Outcome)
    requires k < 64 && WellFormed(o, |p.text|) && Alignable(o, p, k) && Parsed(o, libs, k, p, r) && r.Loaded?
    ensures var l, m := r.layout, r.mem;
            && |m| == l.size && l.dataAt + |p.data| <= l.rodataAt && l.rodataAt + |p.rodata| <= l.jumpAt <= l.size
            && m[l.dataAt..l.dataAt + |p.data|] == p.data
            && m[l.rodataAt..l.rodataAt + |p.rodata|] == p.rodata
            && (forall j :: 0 <= j < |p.text| && !InSite(o, j) ==> m[j] == p.text[j])
    ensures forall i :: 0 <= i < |o.relocations| ==>
              var l, env := r.layout, EnvOf(r.layout, libs);
              SitePatched(o, l, env, r.mem, i) && StubFilled(o, l, env, r.mem, i)
  {
    LayFits(o, p, k);
    var l, env := r.layout, EnvOf(r.layout, libs);
    var mem := Initial(l, p.text, p.data, p.rodata);
    SectionsAreLoaded(o, l, env, p.text, p.data, p.rodata, r.mem);
    forall i | 0 <= i < |o.relocations| ensures SitePatched(o, l, env, r.mem, i) && StubFilled(o, l, env, r.mem, i) {
      RelocationDone(o, l, env, mem, r.mem, i);
    }
  }
}
