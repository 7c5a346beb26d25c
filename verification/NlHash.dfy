/**
 The SSE routine of mmuniq that looks for the newline and hashes the line in one pass over
 16-byte blocks.  The AES rounds stay uninterpreted; the lane-wise operations are spelled out.
 */
module NlHash {
  import opened Basics
  import opened Lines

  /** The primitives that mix a block into the running hash; nothing is assumed about them. */
  datatype Cipher<!H> = Cipher(
    rk0: H, rk1: H,
    xor: (H, seq<byte>) -> H,
    aesenc: (H, H) -> H,
    lengthKey: int -> H,
    fold: H -> uint64)

  // ----- lanes

  type Mask = m: seq<bool> | |m| == 16 witness seq(16, _ => false)
  type Block = x: seq<byte> | |x| == 16 witness seq(16, _ => 0)

  /** set1_epi8(n) > {0, 1, ..., 15}, lane by lane: the first n lanes. */
  function FirstLanes(n: int): Mask {
    seq(16, k requires 0 <= k < 16 => n > k)
  }

  function AndMask(x: Block, m: Mask): Block {
    seq(16, k requires 0 <= k < 16 => if m[k] then x[k] else 0)
  }

  function EqualLanes(x: Block, b: byte): Mask {
    seq(16, k requires 0 <= k < 16 => x[k] == b)
  }

  /** ffs of the movemask: one plus the first set lane, 0 when there is none. */
  function Ffs(m: Mask): (n: int)
    ensures 0 <= n <= 16
    ensures n > 0 ==> m[n - 1] && forall k :: 0 <= k < n - 1 ==> !m[k]
    ensures n == 0 ==> forall k :: 0 <= k < 16 ==> !m[k]
  {
    FfsFrom(m, 0)
  }

  function FfsFrom(m: Mask, k: nat): (n: int)
    requires k <= 16 && forall j :: 0 <= j < k ==> !m[j]
    ensures 0 <= n <= 16
    ensures n > 0 ==> m[n - 1] && forall j :: 0 <= j < n - 1 ==> !m[j]
    ensures n == 0 ==> forall j :: 0 <= j < 16 ==> !m[j]
    decreases 16 - k
  {
    if k == 16 then 0 else if m[k] then k + 1 else FfsFrom(m, k + 1)
  }

  // ----- what the hash of a line is

  function Mix<H>(c: Cipher<H>, h: H, piece: seq<byte>): H {
    c.aesenc(c.aesenc(c.xor(h, piece), c.rk0), c.rk1)
  }

  function Pad(s: seq<byte>): (x: Block)
    requires |s| <= 16
  {
    s + seq(16 - |s|, _ => 0)
  }

  /** Sixteen bytes at a time, the last piece padded with zeros. */
  function Absorb<H>(c: Cipher<H>, h: H, line: seq<byte>): H {
    if line == [] then h
    else if |line| <= 16 then Mix(c, h, Pad(line))
    else Absorb(c, Mix(c, h, line[..16]), line[16..])
  }

  function LineHash<H>(c: Cipher<H>, line: seq<byte>): uint64 {
    c.fold(c.aesenc(Absorb(c, c.rk0, line), c.lengthKey(|line|)))
  }

  /** The load at i, with the bytes past the end of the input masked out. */
  function LoadMasked(mem: seq<byte>, i: nat, e: nat): Block
    requires i < e && i + 16 <= |mem|
  {
    var x: Block := mem[i..i + 16];
    if e - i < 16 then AndMask(x, FirstLanes(e - i)) else x
  }

  /** The block at i sees a newline exactly where the rest of the input has its first one. */
  lemma BlockFindsNl(mem: seq<byte>, i: nat, e: nat)
    requires i < e <= |mem| && i + 16 <= |mem|
    ensures var left, z := mem[i..e], Ffs(EqualLanes(LoadMasked(mem, i, e), NL));
            var k := FirstNl(left);
            if z == 0 then k >= 16 || k == |left| else k < |left| && k < 16 && z == k + 1
  {
    var left, lanes := mem[i..e], EqualLanes(LoadMasked(mem, i, e), NL);
    var z, k := Ffs(lanes), FirstNl(left);
    FirstNlFinds(left);
    assert forall j :: 0 <= j < 16 && j < |left| ==> (lanes[j] <==> left[j] == NL);
    assert forall j :: |left| <= j < 16 ==> !lanes[j];
    if z > 0 {
      assert lanes[z - 1];
      FirstNlUnique(left, z - 1);
    }
  }

  /** Masking a block down to n bytes is padding those n bytes. */
  lemma MaskIsPad(mem: seq<byte>, i: nat, e: nat, n: nat)
    requires i < e <= |mem| && i + 16 <= |mem| && n <= 16 && n <= e - i
    ensures AndMask(LoadMasked(mem, i, e), FirstLanes(n)) == Pad(mem[i..i + n])
    ensures n == 16 || n == e - i ==> LoadMasked(mem, i, e) == Pad(mem[i..i + n])
  {
    assert n == 16 ==> LoadMasked(mem, i, e) == Pad(mem[i..i + n]);
  }

  /** Sixteen bytes without a newline move the first newline sixteen closer. */
  lemma ShiftFirstNl(mem: seq<byte>, i: nat, e: nat)
    requires i <= e <= |mem|
    ensures FirstNl(mem[i..e]) >= 16 ==> i + 16 <= e && FirstNl(mem[i..e]) == 16 + FirstNl(mem[i + 16..e])
  {
    var left := mem[i..e];
    var k := FirstNl(left);
    FirstNlFinds(left);
    if k >= 16 {
      assert mem[i + 16..e] == left[16..];
      FirstNlUnique(left[16..], k - 16);
    }
  }

  /** The rest of the current line, seen from i. */
  function LineFrom(mem: seq<byte>, i: nat, e: nat): seq<byte>
    requires i <= e <= |mem|
  {
    mem[i..i + FirstNl(mem[i..e])]
  }

  /** The block without the newline and what follows it. */
  function Piece(x: Block, z: int): Block {
    if z != 0 then AndMask(x, FirstLanes(z - 1)) else x
  }

  /** The running hash after the block at i, and the ffs of its newline mask. */
  function HashBlock<H>(c: Cipher<H>, mem: seq<byte>, i: nat, e: nat, hash: H): (H, int)
    requires i < e && i + 16 <= |mem|
  {
    var x := LoadMasked(mem, i, e);
    var z := Ffs(EqualLanes(x, NL));
    (if z != 1 then Mix(c, hash, Piece(x, z)) else hash, z)
  }

  function Min16(n: nat): nat {
    if n <= 16 then n else 16
  }

  /** The line has k bytes from i on. */
  lemma PieceIsPad(mem: seq<byte>, i: nat, e: nat, k: nat)
    requires i < e <= |mem| && i + 16 <= |mem| && k == FirstNl(mem[i..e])
    ensures var x := LoadMasked(mem, i, e);
            var z := Ffs(EqualLanes(x, NL));
            (z == 1 <==> k == 0) && Piece(x, z) == Pad(mem[i..i + Min16(k)])
  {
    BlockFindsNl(mem, i, e);
    MaskIsPad(mem, i, e, Min16(k));
  }

  lemma PieceOfSlice(mem: seq<byte>, i: nat, k: nat, n: nat)
    requires i + k <= |mem| && n <= k
    ensures mem[i..i + k][..n] == mem[i..i + n]
  {
  }

  /** The masked block is the next sixteen bytes of the line, padded. */
  lemma BlockIsPad<H>(c: Cipher<H>, mem: seq<byte>, i: nat, e: nat, hash: H)
    requires i < e <= |mem| && i + 16 <= |mem|
    ensures var (hash', z) := HashBlock(c, mem, i, e, hash);
            var line := LineFrom(mem, i, e);
            if z == 1 then line == [] && hash' == hash
            else line != [] && hash' == Mix(c, hash, Pad(line[..Min16(|line|)]))
  {
    var line := LineFrom(mem, i, e);
    PieceIsPad(mem, i, e, |line|);
    PieceOfSlice(mem, i, |line|, Min16(|line|));
  }

  lemma AbsorbNext<H>(c: Cipher<H>, h: H, line: seq<byte>)
    requires line != []
    ensures Absorb(c, h, line) == Absorb(c, Mix(c, h, Pad(line[..Min16(|line|)])), line[Min16(|line|)..])
  {
    var n := Min16(|line|);
    if |line| <= 16 {
      assert line[..n] == line && line[n..] == [];
    } else {
      assert Pad(line[..16]) == line[..16];
    }
  }

  /** Where the line stands after the block at i. */
  lemma BlockAdvances(mem: seq<byte>, i: nat, e: nat)
    requires i < e <= |mem| && i + 16 <= |mem|
    ensures var z := Ffs(EqualLanes(LoadMasked(mem, i, e), NL));
            var line := LineFrom(mem, i, e);
            && (z != 0 ==> |line| == z - 1 < e - i)
            && (z == 0 && i + 16 >= e ==> |line| == e - i <= 16)
            && (z == 0 && i + 16 < e ==> |line| >= 16 && line[16..] == LineFrom(mem, i + 16, e))
  {
    BlockFindsNl(mem, i, e);
    ShiftFirstNl(mem, i, e);
  }

  /** One block absorbs the next sixteen bytes of the line, or what is left of it. */
  lemma BlockStep<H>(c: Cipher<H>, mem: seq<byte>, i: nat, e: nat, hash: H)
    requires i < e <= |mem| && i + 16 <= |mem|
    ensures var (hash', z) := HashBlock(c, mem, i, e, hash);
            var line := LineFrom(mem, i, e);
            && (z != 0 || i + 16 >= e ==> Absorb(c, hash, line) == hash')
            && (z == 0 && i + 16 < e ==> Absorb(c, hash, line) == Absorb(c, hash', LineFrom(mem, i + 16, e)))
  {
    var line := LineFrom(mem, i, e);
    BlockIsPad(c, mem, i, e, hash);
    BlockAdvances(mem, i, e);
    if line != [] {
      AbsorbNext(c, hash, line);
    }
  }

  /** A multiple of 16 below sz leaves room for a whole block in sz rounded up. */
  lemma RoomForBlock(off: nat, sz: nat)
    requires 16 * off < sz
    ensures 16 * off + 16 <= (sz + 15) / 16 * 16
  {
  }

  /** The body of the loop. */
  method MixBlock<H>(c: Cipher<H>, mem: seq<byte>, i: nat, e: nat, hash: H) returns (next: H, z: int)
    requires i < e <= |mem| && i + 16 <= |mem|
    ensures (next, z) == HashBlock(c, mem, i, e, hash)
  {
    var x := LoadMasked(mem, i, e);
    z := Ffs(EqualLanes(x, NL));
    var piece := x;
    if z != 0 {
      piece := AndMask(x, FirstLanes(z - 1));
    }
    next := hash;
    if z != 1 {
      next := Mix(c, hash, piece);
    }
  }

  /** The line is n bytes long, and absorbing it gives hash. */
  ghost predicate Hashed<H>(c: Cipher<H>, line: seq<byte>, n: int, hash: H) {
    |line| == n && Absorb(c, c.rk0, line) == hash
  }

  /** Before the block at i: the bytes of the line in front of i are absorbed, and the rest follows from i. */
  ghost predicate Hashing<H>(c: Cipher<H>, line: seq<byte>, mem: seq<byte>, b: nat, e: nat, i: nat, hash: H)
    requires b <= e <= |mem|
  {
    if i < e then |line| == i - b + |LineFrom(mem, i, e)|
                  && Absorb(c, c.rk0, line) == Absorb(c, hash, LineFrom(mem, i, e))
    else Hashed(c, line, e - b, hash)
  }

  lemma HashStarts<H>(c: Cipher<H>, mem: seq<byte>, b: nat, e: nat)
    requires b <= e <= |mem|
    ensures Hashing(c, LineFrom(mem, b, e), mem, b, e, b, c.rk0)
  {
  }

  /** The body of the loop: go on with the next block, or stop at the newline. */
  method MixNext<H>(c: Cipher<H>, ghost line: seq<byte>, mem: seq<byte>, b: nat, e: nat, i: nat, hash: H)
    returns (next: H, z: int)
    requires b <= i < e <= |mem| && i + 16 <= |mem| && Hashing(c, line, mem, b, e, i, hash)
    ensures z == 0 ==> Hashing(c, line, mem, b, e, i + 16, next)
    ensures z != 0 ==> i + z - 1 < e && Hashed(c, line, i + z - 1 - b, next)
  {
    BlockStep(c, mem, i, e, hash);
    BlockAdvances(mem, i, e);
    next, z := MixBlock(c, mem, i, e, hash);
  }

  /**
   find_nl_and_hash on mem[b .. b + sz): the first newline, if any, and the hash of the bytes in
   front of it (of all of them when there is none).  The loads may reach past the input, into
   bytes that must exist but have no influence.
   */
  method FindNlAndHash<H>(c: Cipher<H>, mem: seq<byte>, b: nat, sz: nat) returns (at: Option<nat>, h: uint64)
    requires b + (sz + 15) / 16 * 16 <= |mem|
    ensures var line := LineFrom(mem, b, b + sz);
            at == (if |line| < sz then Some(b + |line|) else None) && h == LineHash(c, line)
  {
    var e := b + sz;
    var hash := c.rk0;
    at := None;
    var retSz := sz;
    var i := b;
    ghost var line := LineFrom(mem, b, e);
    ghost var blocks := 0;
    HashStarts(c, mem, b, e);
    while i < e
      invariant i == b + 16 * blocks && at == None && retSz == sz
      invariant Hashing(c, line, mem, b, e, i, hash)
    {
      RoomForBlock(blocks, sz);
      var z;
      hash, z := MixNext(c, line, mem, b, e, i, hash);
      if z != 0 {
        at := Some(i + z - 1);
        retSz := i + z - 1 - b;
        break;
      }
      i := i + 16;
      blocks := blocks + 1;
    }
    assert Hashed(c, line, retSz, hash);
    hash := c.aesenc(hash, c.lengthKey(retSz));
    h := c.fold(hash);
  }
}
