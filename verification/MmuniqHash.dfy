/** mmuniq-hash as a whole: the reading loop feeds the filter, and the output is a function of the input. */
module MmuniqHash {
  import opened Basics
  import opened Arith
  import opened Lines
  import opened HashTable
  import opened FixedTable
  import opened Dedup

  /** What the program prints for the lines of an input. */
  function Output(H: seq<byte> -> uint64, repeated: bool, size: nat, lines: seq<seq<byte>>): seq<byte>
    requires size > 0
  {
    Join(Printed(repeated, lines, InsertAll(Zeros(size), Hashes(H, lines)).misses), [])
  }

  class Program {
    const splitter: Splitter
    const filter: Filter

    constructor (H: seq<byte> -> uint64, repeated: bool, size: nat, ghost k: nat, cap: nat)
      requires size == Pow2(k) && cap > 0
      ensures Follows([]) && filter.H == H && filter.repeated == repeated
      ensures filter.bm.Length == size && splitter.buf.Length == cap
    {
      splitter := new Splitter(cap);
      filter := new Filter(H, repeated, size, k);
      new;
      assert Hashes(H, []) == [];
    }

    /** Having read the given input so far: its lines have been through the filter. */
    ghost predicate Follows(input: seq<byte>)
      reads this, splitter, splitter.buf, filter, filter.bm
    {
      && splitter.buf as object != filter.bm as object && splitter as object != filter as object
      && splitter.Follows(input) && filter.Handled(Zeros(filter.bm.Length), splitter.lines)
    }

    /** One turn of the reading loop. */
    method ProcessRead(bytes: seq<byte>, ghost before: seq<byte>)
      requires Follows(before) && 0 < |bytes| <= splitter.buf.Length - splitter.bufPos
      modifies splitter, splitter.buf, filter`printed, filter`overflowCount, filter.bm
      ensures Follows(before + bytes)
    {
      var n := |splitter.lines|;
      SplitAppend(before, bytes, splitter.buf.Length);
      splitter.ProcessRead(bytes, before);
      filter.ProcessLines(splitter.lines, n, Zeros(filter.bm.Length));
    }

    /** The program, for any sequence of reads that fit: a tail without a newline is not printed. */
    method Run(chunks: seq<seq<byte>>) returns (out: seq<byte>)
      requires Follows([]) && ReadsFit([], chunks, splitter.buf.Length)
      modifies splitter, splitter.buf, filter`printed, filter`overflowCount, filter.bm
      ensures out == Output(filter.H, filter.repeated, filter.bm.Length,
                            Split(Flatten(chunks), splitter.buf.Length).lines)
    {
      ghost var input := [];
      FirstNlUnique([], 0);
      for i := 0 to |chunks|
        invariant Follows(input) && input == Flatten(chunks[..i])
        invariant ReadsFit(Split(input, splitter.buf.Length).rest, chunks[i..], splitter.buf.Length)
      {
        NextRead(input, chunks, i, splitter.buf.Length);
        ProcessRead(chunks[i], input);
        input := input + chunks[i];
      }
      assert chunks[..|chunks|] == chunks;
      out := Join(filter.printed, []);
    }
  }

  /** When no line hashes to 0 and no probe gives up, the output is that of the set of hashes. */
  lemma OutputIsFirstsOrRepeats(H: seq<byte> -> uint64, size: nat, lines: seq<seq<byte>>)
    requires size > 0 && NoneGivesUp(Zeros(size), Hashes(H, lines))
    ensures Output(H, false, size, lines) == Join(Firsts(H, lines), [])
    ensures Output(H, true, size, lines) == Join(Repeats(H, lines), [])
  {
    ZerosWellFormed(size);
    PrintsFirstsOrRepeats(H, Zeros(size), lines);
  }
}
