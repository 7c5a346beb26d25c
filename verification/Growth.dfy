/** What mmuniq counts as items, and when its table grows. */
module Growth {
  import opened Basics
  import opened Lines
  import opened HashTable
  import opened Dedup
  import opened DedupRuns

  /** Step j takes a line whose hash goes into an empty slot. */
  predicate FillsSlot(H: seq<byte> -> uint64, t: seq<nat>, op: Op)
    requires |t| > 0
  {
    op.Take? && Insert(t, H(op.line)).miss == 1
  }

  /** How many steps of a run do so. */
  function Filled(H: seq<byte> -> uint64, t: seq<nat>, ops: seq<Op>): nat
    requires |t| > 0
    decreases |ops|
  {
    if ops == [] then 0
    else
      var n := |ops| - 1;
      Filled(H, t, ops[..n]) + if FillsSlot(H, After(H, t, ops[..n]), ops[n]) then 1 else 0
  }

  lemma {:induction false} FilledAppend(H: seq<byte> -> uint64, t: seq<nat>, a: seq<Op>, b: seq<Op>)
    requires |t| > 0
    ensures Filled(H, t, a + b) == Filled(H, t, a) + Filled(H, After(H, t, a), b)
    decreases |b|
  {
    if b == [] {
      assert a + b == a;
    } else {
      var n := |b| - 1;
      FilledAppend(H, t, a, b[..n]);
      AfterAppend(H, t, a, b[..n]);
      assert (a + b)[..|a + b| - 1] == a + b[..n] && (a + b)[|a + b| - 1] == b[n];
    }
  }

  lemma {:induction false} LinesCount(H: seq<byte> -> uint64, repeated: bool, st: St, lines: seq<seq<byte>>)
    requires |st.table| > 0
    ensures EmitAll(H, repeated, st, lines).items == st.items + Filled(H, st.table, Takes(lines))
    decreases |lines|
  {
    if lines != [] {
      var n := |lines| - 1;
      LinesCount(H, repeated, st, lines[..n]);
      LeadsTakes(H, repeated, st, lines[..n]);
      TakesOneMore(lines);
      assert Takes(lines)[..n] == Takes(lines[..n]);
    }
  }

  lemma DoublingCountsNothing(H: seq<byte> -> uint64, threshold: nat -> nat, st: St)
    requires |st.table| > 0
    ensures Filled(H, st.table, Doubling(threshold, st)) == 0 && Settle(threshold, st).items == st.items
  {
    var ops := Doubling(threshold, st);
    if ops != [] { assert Filled(H, st.table, ops[..0]) == 0; }
  }

  /** One read counts its steps. */
  lemma ReadCounts(H: seq<byte> -> uint64, repeated: bool, threshold: nat -> nat, st: St, lines: seq<seq<byte>>)
    requires |st.table| > 0
    ensures AfterRead(H, repeated, threshold, st, lines).items
            == EmitAll(H, repeated, st, lines).items
            == st.items + Filled(H, st.table, ReadSteps(H, repeated, threshold, st, lines))
  {
    var st1 := EmitAll(H, repeated, st, lines);
    LinesCount(H, repeated, st, lines);
    LeadsTakes(H, repeated, st, lines);
    DoublingCountsNothing(H, threshold, st1);
    FilledAppend(H, st.table, Takes(lines), Doubling(threshold, st1));
  }

  /** Along every run the items are the lines whose hash went into an empty slot, since the start. */
  lemma {:induction false} RunCounts(H: seq<byte> -> uint64, repeated: bool, threshold: nat -> nat, cap: nat,
                                     st: St, pending: seq<byte>, chunks: seq<seq<byte>>)
    requires cap > 0 && |st.table| > 0
    ensures AfterReads(H, repeated, threshold, cap, st, pending, chunks).items
            == st.items + Filled(H, st.table, Steps(H, repeated, threshold, cap, st, pending, chunks))
    decreases |chunks|
  {
    if chunks != [] {
      var cut := Split(pending + chunks[0], cap);
      var st2 := AfterRead(H, repeated, threshold, st, cut.lines);
      RunCounts(H, repeated, threshold, cap, st2, cut.rest, chunks[1..]);
      ReadCounts(H, repeated, threshold, st, cut.lines);
      ReadLeads(H, repeated, threshold, st, cut.lines);
      FilledAppend(H, st.table, ReadSteps(H, repeated, threshold, st, cut.lines),
                   Steps(H, repeated, threshold, cap, st2, cut.rest, chunks[1..]));
    }
  }

  // ----- when the table grows

  /** The unfinished line before the last read. */
  function PendingBefore(pending: seq<byte>, chunks: seq<seq<byte>>, cap: nat): seq<byte>
    requires cap > 0
    decreases |chunks|
  {
    if |chunks| <= 1 then pending else PendingBefore(Split(pending + chunks[0], cap).rest, chunks[1..], cap)
  }

  /** A run is the run before its last read, and that read. */
  lemma {:induction false} RunByLastRead(H: seq<byte> -> uint64, repeated: bool, threshold: nat -> nat, cap: nat,
                                         st: St, pending: seq<byte>, chunks: seq<seq<byte>>)
    requires cap > 0 && |st.table| > 0 && chunks != []
    ensures var n := |chunks| - 1;
            var before := AfterReads(H, repeated, threshold, cap, st, pending, chunks[..n]);
            var lines := Split(PendingBefore(pending, chunks, cap) + chunks[n], cap).lines;
            && AfterReads(H, repeated, threshold, cap, st, pending, chunks)
               == AfterRead(H, repeated, threshold, before, lines)
            && |before.table| > 0
    decreases |chunks|
  {
    var n := |chunks| - 1;
    if n > 0 {
      var cut := Split(pending + chunks[0], cap);
      var st2 := AfterRead(H, repeated, threshold, st, cut.lines);
      RunByLastRead(H, repeated, threshold, cap, st2, cut.rest, chunks[1..]);
      assert chunks[1..][..n - 1] == chunks[..n][1..];
    }
  }

  /**
   After its last read the table of a run from no items is twice as large as before exactly when the
   lines that went into empty slots so far, that read included, are more than the threshold for its
   size, and otherwise just as large.
   */
  lemma GrowsIff(H: seq<byte> -> uint64, repeated: bool, threshold: nat -> nat, cap: nat, t: seq<nat>,
                 chunks: seq<seq<byte>>)
    requires cap > 0 && |t| > 0 && chunks != []
    ensures var st, n := St(t, 0, []), |chunks| - 1;
            var before := |AfterReads(H, repeated, threshold, cap, st, [], chunks[..n]).table|;
            var filled := Filled(H, t, Steps(H, repeated, threshold, cap, st, [], chunks));
            |AfterReads(H, repeated, threshold, cap, st, [], chunks).table|
            == if filled > threshold(before) then 2 * before else before
  {
    var st, n := St(t, 0, []), |chunks| - 1;
    RunByLastRead(H, repeated, threshold, cap, st, [], chunks);
    RunCounts(H, repeated, threshold, cap, st, [], chunks);
    ReadCounts(H, repeated, threshold, AfterReads(H, repeated, threshold, cap, st, [], chunks[..n]),
               Split(PendingBefore([], chunks, cap) + chunks[n], cap).lines);
  }

  // ----- without losses

  lemma {:induction false} LosslessLinesCount(H: seq<byte> -> uint64, repeated: bool, st: St, lines: seq<seq<byte>>)
    requires WellFormed(st.table) && Lossless(H, repeated, st, lines)
    ensures var st1 := EmitAll(H, repeated, st, lines);
            WellFormed(st1.table) && st1.items - |Values(st1.table)| == st.items - |Values(st.table)|
    decreases |lines|
  {
    if lines != [] {
      var n := |lines| - 1;
      LosslessPrefix(H, repeated, st, lines, n);
      LosslessLinesCount(H, repeated, st, lines[..n]);
      assert LosslessAt(H, repeated, st, lines, n);
      InsertCorrect(EmitAll(H, repeated, st, lines[..n]).table, H(lines[n]));
    }
  }

  lemma {:induction false} LosslessRunCounts(H: seq<byte> -> uint64, repeated: bool, threshold: nat -> nat, cap: nat,
                                             st: St, pending: seq<byte>, chunks: seq<seq<byte>>)
    requires cap > 0 && WellFormed(st.table) && LosslessReads(H, repeated, threshold, cap, st, pending, chunks)
    ensures var st2 := AfterReads(H, repeated, threshold, cap, st, pending, chunks);
            st2.items - |Values(st2.table)| == st.items - |Values(st.table)|
    decreases |chunks|
  {
    if chunks != [] {
      var cut := Split(pending + chunks[0], cap);
      var st1 := EmitAll(H, repeated, st, cut.lines);
      LosslessLinesCount(H, repeated, st, cut.lines);
      SettleKeepsView(threshold, st1);
      LosslessRunCounts(H, repeated, threshold, cap, Settle(threshold, st1), cut.rest, chunks[1..]);
    }
  }

  ghost function HashSet(H: seq<byte> -> uint64, lines: seq<seq<byte>>): set<nat> {
    set l | l in lines :: H(l)
  }

  /** From an empty table, without losses, the items are the different hashes of the lines of the input. */
  lemma ItemsAreHashes(H: seq<byte> -> uint64, repeated: bool, threshold: nat -> nat, cap: nat, size: nat,
                       chunks: seq<seq<byte>>)
    requires cap > 0 && size > 0
    requires LosslessReads(H, repeated, threshold, cap, St(Zeros(size), 0, []), [], chunks)
    ensures AfterReads(H, repeated, threshold, cap, St(Zeros(size), 0, []), [], chunks).items
            == |HashSet(H, Split(Flatten(chunks), cap).lines)|
  {
    var st, lines := St(Zeros(size), 0, []), Split(Flatten(chunks), cap).lines;
    ZerosWellFormed(size);
    LosslessRunCounts(H, repeated, threshold, cap, st, [], chunks);
    ReadsRefineLines(H, repeated, threshold, cap, st, [], chunks);
    assert [] + Flatten(chunks) == Flatten(chunks);
    forall h ensures h in NoteAll(H, repeated, Seen({}, []), lines).hashes <==> h in HashSet(H, lines) {
      HashesAreNoted(H, repeated, lines, h);
      assert HasHash(H, lines, h) <==> h in HashSet(H, lines);
    }
    assert NoteAll(H, repeated, Seen({}, []), lines).hashes == HashSet(H, lines);
    assert View(AfterReads(H, repeated, threshold, cap, st, [], chunks)).hashes == HashSet(H, lines);
  }
}
