/** mmuniq-bloom as a whole: the reading loop feeds the filter, and the output is a function of the input. */
module MmuniqBloom {
  import opened Basics
  import opened Lines
  import opened Bloom
  import opened Dedup

  class Program {
    const splitter: Splitter
    const filter: Filter
    /** The bitmap as it was mapped: all bits clear. */
    ghost const start: seq<nat>

    constructor (siphash: (seq<byte>, nat) -> Words, bswap: nat -> nat, k: nat, logM: nat, repeated: bool,
                 dummyRun: bool, cap: nat)
      requires logM >= 6 && cap > 0
      ensures Follows([]) && splitter.buf.Length == cap && forall b: nat :: !BitSet(start, b)
      ensures filter.siphash == siphash && filter.bswap == bswap && filter.k == k && filter.logM == logM
      ensures filter.repeated == repeated && filter.dummyRun == dummyRun
    {
      splitter := new Splitter(cap);
      var f := new Filter(siphash, bswap, k, logM, repeated, dummyRun);
      filter := f;
      start := f.bm[..];
      new;
    }

    /** Having read the given input so far: its lines have been through the filter. */
    ghost predicate Follows(input: seq<byte>)
      reads this, splitter, splitter.buf, filter, filter.bm
    {
      && splitter.buf as object != filter.bm as object && splitter as object != filter as object
      && splitter.Follows(input) && filter.Shape() && filter.Handled(start, splitter.lines)
    }

    /** One turn of the reading loop. */
    method ProcessRead(bytes: seq<byte>, ghost before: seq<byte>)
      requires Follows(before) && 0 < |bytes| <= splitter.buf.Length - splitter.bufPos
      modifies splitter, splitter.buf, filter`printed, filter.bm
      ensures Follows(before + bytes)
    {
      var n := |splitter.lines|;
      SplitAppend(before, bytes, splitter.buf.Length);
      splitter.ProcessRead(bytes, before);
      filter.ProcessFrom(splitter.lines, n, start);
    }

    /**
     The program, for any sequence of reads that fit.  Which lines are printed is a function of the
     lines of the input; a tail without a newline is not printed.
     */
    method Run(chunks: seq<seq<byte>>) returns (out: seq<byte>)
      requires Follows([]) && ReadsFit([], chunks, splitter.buf.Length)
      modifies splitter, splitter.buf, filter`printed, filter.bm
      ensures out == Join(filter.PrintedOf(start, Split(Flatten(chunks), splitter.buf.Length).lines), [])
    {
      ghost var input := [];
      FirstNlUnique([], 0);
      for i := 0 to |chunks|
        invariant Follows(input) && input == Flatten(chunks[..i])
        invariant ReadsFit(Split(input, splitter.buf.Length).rest, chunks[i..], splitter.buf.Length)
      {
        NextRead(input, chunks, i, splitter.buf.Length);
        ProcessRead(chunks[i], input);
        input := input + chunks[i];
      }
      assert chunks[..|chunks|] == chunks;
      out := Join(filter.printed, []);
    }
  }
}
