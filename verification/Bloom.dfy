/** mmuniq-bloom: a bitmap of 64-bit words and k hashes per line, eight from every SipHash state. */
module Bloom {
  import opened Basics
  import opened Arith
  import opened Bits

  // ----- the bitmap

  predicate BitSet(bm: seq<nat>, n: nat) {
    n / 64 < |bm| && BitOf(bm[n / 64], n % 64)
  }

  /** bitmap_getset: was bit n set?  It is now, and no other bit has changed. */
  method GetSet(bm: array<nat>, n: nat) returns (r: int)
    requires n / 64 < bm.Length
    modifies bm
    ensures r == (if BitSet(old(bm[..]), n) then 1 else 0)
    ensures forall i: nat :: BitSet(bm[..], i) <==> BitSet(old(bm[..]), i) || i == n
  {
    var mask := Pow2(n % 64);
    var v := bm[n / 64];
    AndTestsBit(v, n % 64);
    ghost var was := bm[..];
    if BitAnd(v, mask) == 0 {
      bm[n / 64] := BitOr(v, mask);
      forall i: nat ensures BitSet(bm[..], i) <==> BitSet(was, i) || i == n {
        if i / 64 == n / 64 {
          OrSetsBit(v, n % 64, i % 64);
        }
      }
      return 0;
    } else {
      return 1;
    }
  }

  // ----- the k hashes of a line

  /** Four of the state words of a SipHash run. */
  datatype Words = Words(w0: nat, w1: nat, w2: nat, w3: nat)

  function Word(w: Words, r: nat): nat {
    match r
    case 0 => w.w0
    case 1 => w.w1
    case 2 => w.w2
    case _ => w.w3
  }

  class Filter {
    /** siphash24(line, k0 + off, k1 + off, res); uninterpreted here. */
    const siphash: (seq<byte>, nat) -> Words
    const bswap: nat -> nat
    /** Number of hash functions, and log2 of the number of bits. */
    const k: nat
    const logM: nat
    const repeated: bool
    const dummyRun: bool
    const bm: array<nat>
    var printed: seq<seq<byte>>

    constructor (siphash: (seq<byte>, nat) -> Words, bswap: nat -> nat, k: nat, logM: nat, repeated: bool,
                 dummyRun: bool)
      requires logM >= 6
      ensures Shape() && fresh(bm) && printed == []
      ensures forall i: nat :: !BitSet(bm[..], i)
      ensures this.siphash == siphash && this.bswap == bswap && this.k == k && this.logM == logM
      ensures this.repeated == repeated && this.dummyRun == dummyRun
    {
      this.siphash := siphash;
      this.bswap := bswap;
      this.k := k;
      this.logM := logM;
      this.repeated := repeated;
      this.dummyRun := dummyRun;
      bm := new nat[Pow2(logM - 6)](_ => 0);
      printed := [];
      new;
      forall i: nat ensures !BitSet(bm[..], i) { ZeroHasNoBits(i % 64); }
    }

    ghost predicate Shape()
      reads this
    {
      logM >= 6 && bm.Length == Pow2(logM - 6)
    }

    /** The r-th hash from the g-th SipHash state: a state word, or its byte swap, cut to the size of the bitmap. */
    function HashIn(line: seq<byte>, g: nat, r: nat): nat {
      var words := siphash(line, Offset(8 * g));
      BitAnd(if r < 4 then Word(words, r) else bswap(Word(words, r - 4)), Pow2(logM) - 1)
    }

    function Offset(i: nat): nat {
      i * 0x1000100010001000 % TWO64
    }

    /** Hash function j of a line. */
    function HashOf(line: seq<byte>, j: nat): nat {
      HashIn(line, j / 8, j % 8)
    }

    lemma HashInRange(line: seq<byte>, j: nat)
      requires Shape()
      ensures HashOf(line, j) / 64 < bm.Length
    {
      var words := siphash(line, Offset(8 * (j / 8)));
      var r := j % 8;
      MaskIsMod(if r < 4 then Word(words, r) else bswap(Word(words, r - 4)), logM);
      Pow2Split(logM);
    }

    /**
     Eight hashes come from each SipHash run: its four words and then the same words with their bytes
     swapped, cut to the size of the bitmap.
     */
    lemma HashOfIs(line: seq<byte>, g: nat, r: nat)
      requires r < 8
      ensures var w := siphash(line, 8 * g * 0x1000_1000_1000_1000 % 0x1_0000_0000_0000_0000);
              var word := [w.w0, w.w1, w.w2, w.w3][r % 4];
              HashOf(line, 8 * g + r) == (if r >= 4 then bswap(word) else word) % Pow2(logM)
    {
      var w := siphash(line, Offset(8 * g));
      assert (8 * g + r) / 8 == g && (8 * g + r) % 8 == r;
      MaskIsMod(if r < 4 then Word(w, r) else bswap(Word(w, r - 4)), logM);
    }

    /** Every bit of the line is set: the filter takes it for a line seen before. */
    ghost predicate Known(bits: seq<nat>, line: seq<byte>) {
      forall j :: 0 <= j < k ==> BitSet(bits, HashOf(line, j))
    }

    /** The bits that the first n hashes of a line add. */
    ghost predicate Marked(bits: seq<nat>, before: seq<nat>, line: seq<byte>, n: nat) {
      forall i: nat :: BitSet(bits, i) <==> BitSet(before, i) || exists j :: 0 <= j < n && HashOf(line, j) == i
    }

    method PutFour(res: array<Option<nat>>, at: nat, cut: nat -> nat, w: Words)
      requires at + 4 <= res.Length
      modifies res
      ensures forall r :: 0 <= r < res.Length ==>
                res[r] == if at <= r < at + 4 then Some(cut(Word(w, r - at))) else old(res[r])
    {
      res[at] := Some(cut(w.w0));
      res[at + 1] := Some(cut(w.w1));
      res[at + 2] := Some(cut(w.w2));
      res[at + 3] := Some(cut(w.w3));
    }

    /** Eight hashes from one SipHash state; the last four slots are filled only when they are needed. */
    method Hashes(line: seq<byte>, i: nat, ghost g: nat) returns (res: array<Option<nat>>)
      requires i == 8 * g
      ensures fresh(res) && res.Length == 8
      ensures forall r :: 0 <= r < 8 && i + r < k ==> res[r] == Some(HashIn(line, g, r))
    {
      var off := Offset(i);
      var mMask: nat := Pow2(logM) - 1;
      var w := siphash(line, off);
      res := new Option<nat>[8](_ => None);
      if i + 4 < k {
        PutFour(res, 4, x => BitAnd(bswap(x), mMask), w);
      }
      PutFour(res, 0, x => BitAnd(x, mMask), w);
    }

    /** Some of the first n bits of the line was clear. */
    ghost predicate Missed(before: seq<nat>, line: seq<byte>, n: nat) {
      exists j :: 0 <= j < n && !BitSet(before, HashOf(line, j))
    }

    /** The inner loop of process_line: the bits i .. i + 8 of the line that exist. */
    method ProbeGroup(line: seq<byte>, i: nat, ghost g: nat, missed: bool, ghost before: seq<nat>)
      returns (miss: bool, ghost upto: nat)
      requires Shape() && i == 8 * g && i < k
      requires if dummyRun then !missed && bm[..] == before
               else Marked(bm[..], before, line, i) && (missed <==> Missed(before, line, i))
      modifies bm
      ensures upto == if i + 8 < k then i + 8 else k
      ensures if dummyRun then !miss && bm[..] == before
              else Marked(bm[..], before, line, upto) && (miss <==> Missed(before, line, upto))
    {
      miss := missed;
      var res := Hashes(line, i, g);
      var j := i;
      while j < i + 8 && j < k
        modifies bm
        invariant i <= j <= i + 8 && j <= k
        invariant if dummyRun then !miss && bm[..] == before
                  else Marked(bm[..], before, line, j) && (miss <==> Missed(before, line, j))
      {
        assert j / 8 == g && j % 8 == j - i;
        var hash := res[j % 8].value;
        if !dummyRun {
          HashInRange(line, j);
          var r := ProbeBit(line, j, hash, before);
          miss := miss || r == 0;
        }
        j := j + 1;
      }
      upto := j;
    }

    method ProbeBit(line: seq<byte>, j: nat, hash: nat, ghost before: seq<nat>) returns (r: int)
      requires Shape() && hash == HashOf(line, j) && hash / 64 < bm.Length && Marked(bm[..], before, line, j)
      modifies bm
      ensures Marked(bm[..], before, line, j + 1)
      ensures r == 0 || Missed(before, line, j) <==> Missed(before, line, j + 1)
    {
      ghost var was := bm[..];
      r := GetSet(bm, hash);
      assert Marked(was, before, line, j);
      if r != 0 && !BitSet(before, hash) {
        var i :| 0 <= i < j && HashOf(line, i) == hash;
      }
    }

    /** The loops of process_line: was some bit of the line clear?  All of them are set now. */
    method Probe(line: seq<byte>) returns (miss: bool)
      requires Shape()
      modifies bm
      ensures if dummyRun then !miss && bm[..] == old(bm[..])
              else Marked(bm[..], old(bm[..]), line, k) && (miss <==> Missed(old(bm[..]), line, k))
    {
      ghost var before := bm[..];
      ghost var g := 0;
      ghost var upto := 0;
      miss := false;
      var i := 0;
      while i < k
        modifies bm
        invariant i == 8 * g && upto == (if i < k then i else k)
        invariant if dummyRun then !miss && bm[..] == before
                  else Marked(bm[..], before, line, upto) && (miss <==> Missed(before, line, upto))
      {
        miss, upto := ProbeGroup(line, i, g, miss, before);
        i := i + 8;
        g := g + 1;
      }
    }

    /** Between two lines: whatever unique mode has printed is known, and was printed once. */
    ghost predicate PrintedOnce()
      reads this, bm
    {
      && Shape()
      && (!repeated && !dummyRun ==>
           (forall l :: l in printed ==> Known(bm[..], l))
           && forall i, j :: 0 <= i < j < |printed| ==> printed[i] != printed[j])
    }

    /** process_line. */
    method ProcessLine(line: seq<byte>)
      requires PrintedOnce()
      modifies this`printed, bm
      ensures PrintedOnce()
      ensures dummyRun ==> bm[..] == old(bm[..])
      ensures !dummyRun ==> Known(bm[..], line) && forall l :: Known(old(bm[..]), l) ==> Known(bm[..], l)
      ensures !dummyRun ==> forall i: nat :: BitSet(bm[..], i) <==>
                BitSet(old(bm[..]), i) || exists j :: 0 <= j < k && HashOf(line, j) == i
      ensures printed == old(printed) + if repeated == (dummyRun || old(Known(bm[..], line))) then [line] else []
    {
      ghost var before := bm[..];
      var miss := Probe(line);
      assert !repeated && !dummyRun && miss ==> line !in printed;
      if (!repeated && miss) || (repeated && !miss) {
        printed := printed + [line];
      } else {
        assert printed + [] == printed;
      }
      if !dummyRun {
        forall l | Known(before, l) ensures Known(bm[..], l) { }
        assert Known(bm[..], line);
      }
    }

    /** Some hash of one of the lines is bit b. */
    ghost predicate AddedBy(lines: seq<seq<byte>>, b: nat) {
      exists m, j :: 0 <= m < |lines| && 0 <= j < k && HashOf(lines[m], j) == b
    }

    /** Every bit of the line is set at the start or by one of the lines. */
    ghost predicate Covered(start: seq<nat>, lines: seq<seq<byte>>, line: seq<byte>) {
      forall j :: 0 <= j < k ==> BitSet(start, HashOf(line, j)) || AddedBy(lines, HashOf(line, j))
    }

    /** What a run prints: in unique mode the lines not covered by start and the lines before them, else the others. */
    ghost function PrintedOf(start: seq<nat>, lines: seq<seq<byte>>): seq<seq<byte>>
      decreases |lines|
    {
      if lines == [] then []
      else
        var n := |lines| - 1;
        PrintedOf(start, lines[..n])
        + if repeated == (dummyRun || Covered(start, lines[..n], lines[n])) then [lines[n]] else []
    }

    /** From the bits of start, the given lines have been handled. */
    ghost predicate Handled(start: seq<nat>, lines: seq<seq<byte>>)
      reads this`printed, bm
    {
      && (forall b: nat :: BitSet(bm[..], b) <==> BitSet(start, b) || (!dummyRun && AddedBy(lines, b)))
      && printed == PrintedOf(start, lines)
    }

    lemma AddedByOneMore(lines: seq<seq<byte>>, line: seq<byte>, b: nat)
      ensures AddedBy(lines + [line], b) <==> AddedBy(lines, b) || exists j :: 0 <= j < k && HashOf(line, j) == b
    {
      var all := lines + [line];
      if m, j :| 0 <= m < |lines| && 0 <= j < k && HashOf(lines[m], j) == b {
        assert HashOf(all[m], j) == b;
      }
      if j :| 0 <= j < k && HashOf(line, j) == b {
        assert HashOf(all[|lines|], j) == b;
      }
    }

    lemma PrintedOneMore(start: seq<nat>, lines: seq<seq<byte>>, line: seq<byte>)
      ensures PrintedOf(start, lines + [line])
              == PrintedOf(start, lines) + if repeated == (dummyRun || Covered(start, lines, line)) then [line] else []
    {
      assert (lines + [line])[..|lines|] == lines;
    }

    lemma {:induction false} PrintedAreLines(start: seq<nat>, lines: seq<seq<byte>>)
      ensures forall l :: l in PrintedOf(start, lines) ==> l in lines
      decreases |lines|
    {
      if lines != [] {
        PrintedAreLines(start, lines[..|lines| - 1]);
      }
    }

    /** A line is covered by itself, so unique mode does not print it twice. */
    lemma {:induction false} PrintedAreDistinct(start: seq<nat>, lines: seq<seq<byte>>)
      requires !repeated && !dummyRun
      ensures forall i, j :: 0 <= i < j < |PrintedOf(start, lines)| ==>
                PrintedOf(start, lines)[i] != PrintedOf(start, lines)[j]
      decreases |lines|
    {
      if lines != [] {
        var n := |lines| - 1;
        PrintedAreDistinct(start, lines[..n]);
        PrintedAreLines(start, lines[..n]);
        if lines[n] in lines[..n] { LineCoversItself(start, lines[..n], lines[n]); }
      }
    }

    lemma LineCoversItself(start: seq<nat>, lines: seq<seq<byte>>, line: seq<byte>)
      requires line in lines
      ensures Covered(start, lines, line)
    {
      forall j | 0 <= j < k ensures AddedBy(lines, HashOf(line, j)) {
        var m :| 0 <= m < |lines| && lines[m] == line;
        assert HashOf(lines[m], j) == HashOf(line, j);
      }
    }

    /** The lines that have been handled are known. */
    lemma HandledAreKnown(start: seq<nat>, lines: seq<seq<byte>>)
      requires Handled(start, lines)
      ensures !dummyRun ==> forall l :: l in lines ==> Known(bm[..], l)
    {
      forall l | l in lines ensures Covered(start, lines, l) {
        LineCoversItself(start, lines, l);
      }
    }

    lemma HandledIsPrintedOnce(start: seq<nat>, lines: seq<seq<byte>>)
      requires Shape() && Handled(start, lines)
      ensures PrintedOnce()
    {
      if !repeated && !dummyRun {
        HandledAreKnown(start, lines);
        PrintedAreLines(start, lines);
        PrintedAreDistinct(start, lines);
      }
    }

    method ProcessNext(line: seq<byte>, ghost start: seq<nat>, ghost lines: seq<seq<byte>>)
      requires Shape() && Handled(start, lines)
      modifies this`printed, bm
      ensures Handled(start, lines + [line])
    {
      HandledIsPrintedOnce(start, lines);
      PrintedOneMore(start, lines, line);
      assert !dummyRun ==> (Known(bm[..], line) <==> Covered(start, lines, line));
      ProcessLine(line);
      forall b: nat
        ensures AddedBy(lines + [line], b) <==> AddedBy(lines, b) || exists j :: 0 <= j < k && HashOf(line, j) == b
      {
        AddedByOneMore(lines, line, b);
      }
    }

    /** process_line on the lines from number n on: Handled says which bits are set and which lines are printed. */
    method ProcessFrom(lines: seq<seq<byte>>, n: nat, ghost start: seq<nat>)
      requires Shape() && n <= |lines| && Handled(start, lines[..n])
      modifies this`printed, bm
      ensures Handled(start, lines)
    {
      ghost var done := lines[..n];
      for i := n to |lines|
        invariant done == lines[..i] && Handled(start, done)
      {
        ProcessNext(lines[i], start, done);
        done := done + [lines[i]];
      }
      assert done == lines;
    }

    /** Over any run every line is known afterwards, and unique mode prints no line twice. */
    method ProcessLines(lines: seq<seq<byte>>)
      requires Shape() && printed == []
      modifies this`printed, bm
      ensures Handled(old(bm[..]), lines) && PrintedOnce()
      ensures !dummyRun ==> forall l :: l in lines ==> Known(bm[..], l)
      ensures !repeated && !dummyRun ==> forall i, j :: 0 <= i < j < |printed| ==> printed[i] != printed[j]
      ensures forall l :: l in printed ==> l in lines
    {
      ghost var start := bm[..];
      ProcessFrom(lines, 0, start);
      HandledAreKnown(start, lines);
      PrintedAreLines(start, lines);
      HandledIsPrintedOnce(start, lines);
    }
  }
}
