/**
 What mmuniq prints, line by line: the table decides, and in the absence of losses the table
 only matters through the set of hashes it stores.
 */
module Dedup {
  import opened Basics
  import opened Lines
  import opened HashTable

  /** The table, the number of stored items and everything printed so far. */
  datatype St = St(table: seq<nat>, items: nat, out: seq<byte>)

  /** Unique mode prints new lines, repeated mode (-D) prints lines seen before. */
  predicate Prints(repeated: bool, miss: int) {
    (!repeated && miss == 1) || (repeated && miss == 0)
  }

  function Emit(H: seq<byte> -> uint64, repeated: bool, st: St, line: seq<byte>): (r: St)
    requires |st.table| > 0
    ensures |r.table| == |st.table|
  {
    EmitAs(H(line), repeated, st, line)
  }

  /** A line, printed or not depending on the hash h. */
  function EmitAs(h: nat, repeated: bool, st: St, line: seq<byte>): (r: St)
    requires |st.table| > 0
    ensures |r.table| == |st.table|
  {
    EmitWith(Insert(st.table, h), repeated, st, line)
  }

  function EmitWith(ins: Insertion, repeated: bool, st: St, line: seq<byte>): St {
    St(ins.table,
       st.items + if ins.miss == 1 then 1 else 0,
       st.out + if Prints(repeated, ins.miss) then line + [NL] else [])
  }

  function EmitAll(H: seq<byte> -> uint64, repeated: bool, st: St, lines: seq<seq<byte>>): (r: St)
    requires |st.table| > 0
    ensures |r.table| == |st.table|
    decreases |lines|
  {
    if lines == [] then st
    else Emit(H, repeated, EmitAll(H, repeated, st, lines[..|lines| - 1]), lines[|lines| - 1])
  }

  lemma EmitOne(H: seq<byte> -> uint64, repeated: bool, st: St, lines: seq<seq<byte>>, line: seq<byte>)
    requires |st.table| > 0
    ensures EmitAll(H, repeated, st, lines + [line]) == Emit(H, repeated, EmitAll(H, repeated, st, lines), line)
  {
    assert (lines + [line])[..|lines|] == lines;
  }

  lemma {:induction false} EmitAppend(H: seq<byte> -> uint64, repeated: bool, st: St, a: seq<seq<byte>>,
                                      b: seq<seq<byte>>)
    requires |st.table| > 0
    ensures EmitAll(H, repeated, st, a + b) == EmitAll(H, repeated, EmitAll(H, repeated, st, a), b)
    decreases |b|
  {
    if b == [] {
      assert a + b == a;
    } else {
      var n := |b| - 1;
      EmitAppend(H, repeated, st, a, b[..n]);
      assert a + b == (a + b[..n]) + [b[n]];
      EmitOne(H, repeated, st, a + b[..n], b[n]);
    }
  }

  // ----- the same on sets of hashes

  /** The hashes seen so far and everything printed so far. */
  datatype Seen = Seen(hashes: set<nat>, out: seq<byte>)

  function Note(H: seq<byte> -> uint64, repeated: bool, s: Seen, line: seq<byte>): Seen {
    var h := H(line);
    Seen(s.hashes + {h}, s.out + if repeated == (h in s.hashes) then line + [NL] else [])
  }

  function NoteAll(H: seq<byte> -> uint64, repeated: bool, s: Seen, lines: seq<seq<byte>>): Seen
    decreases |lines|
  {
    if lines == [] then s
    else Note(H, repeated, NoteAll(H, repeated, s, lines[..|lines| - 1]), lines[|lines| - 1])
  }

  lemma {:induction false} NoteAppend(H: seq<byte> -> uint64, repeated: bool, s: Seen, a: seq<seq<byte>>,
                                      b: seq<seq<byte>>)
    ensures NoteAll(H, repeated, s, a + b) == NoteAll(H, repeated, NoteAll(H, repeated, s, a), b)
    decreases |b|
  {
    if b == [] {
      assert a + b == a;
    } else {
      var n := |b| - 1;
      NoteAppend(H, repeated, s, a, b[..n]);
      assert (a + b)[..|a + b| - 1] == a + b[..n];
    }
  }

  /** No line hashed to the empty marker and no insertion gave up. */
  ghost predicate Lossless(H: seq<byte> -> uint64, repeated: bool, st: St, lines: seq<seq<byte>>)
    requires |st.table| > 0
  {
    forall i :: 0 <= i < |lines| ==> LosslessAt(H, repeated, st, lines, i)
  }

  predicate LosslessAt(H: seq<byte> -> uint64, repeated: bool, st: St, lines: seq<seq<byte>>, i: nat)
    requires |st.table| > 0 && i < |lines|
  {
    H(lines[i]) != 0 && Insert(EmitAll(H, repeated, st, lines[..i]).table, H(lines[i])).miss != -1
  }

  ghost function View(st: St): Seen {
    Seen(Values(st.table), st.out)
  }

  /** The table refines the set of hashes as long as nothing is lost. */
  lemma {:induction false} TableRefinesSet(H: seq<byte> -> uint64, repeated: bool, st: St, lines: seq<seq<byte>>)
    requires WellFormed(st.table) && Lossless(H, repeated, st, lines)
    ensures WellFormed(EmitAll(H, repeated, st, lines).table)
    ensures View(EmitAll(H, repeated, st, lines)) == NoteAll(H, repeated, View(st), lines)
    decreases |lines|
  {
    if lines != [] {
      var n := |lines| - 1;
      LosslessPrefix(H, repeated, st, lines, n);
      TableRefinesSet(H, repeated, st, lines[..n]);
      assert LosslessAt(H, repeated, st, lines, n);
      EmitRefinesNote(H, repeated, EmitAll(H, repeated, st, lines[..n]), lines[n]);
    }
  }

  lemma EmitRefinesNote(H: seq<byte> -> uint64, repeated: bool, st: St, line: seq<byte>)
    requires WellFormed(st.table) && H(line) != 0 && Insert(st.table, H(line)).miss != -1
    ensures WellFormed(Emit(H, repeated, st, line).table)
    ensures View(Emit(H, repeated, st, line)) == Note(H, repeated, View(st), line)
  {
    InsertCorrect(st.table, H(line));
    if Stored(st.table, H(line)) {
      assert Values(st.table) + {H(line)} == Values(st.table);
    }
  }

  lemma LosslessPrefix(H: seq<byte> -> uint64, repeated: bool, st: St, lines: seq<seq<byte>>, n: nat)
    requires |st.table| > 0 && n <= |lines| && Lossless(H, repeated, st, lines)
    ensures Lossless(H, repeated, st, lines[..n])
  {
    forall i | 0 <= i < n ensures LosslessAt(H, repeated, st, lines[..n], i) {
      assert LosslessAt(H, repeated, st, lines, i);
      assert lines[..n][..i] == lines[..i];
    }
  }

  // ----- unique mode prints one line per hash

  /** The lines whose hash has not occurred before. */
  function Firsts(H: seq<byte> -> uint64, lines: seq<seq<byte>>): seq<seq<byte>>
    decreases |lines|
  {
    if lines == [] then []
    else
      var n := |lines| - 1;
      Firsts(H, lines[..n]) + if exists j :: 0 <= j < n && H(lines[j]) == H(lines[n]) then [] else [lines[n]]
  }

  /** lines[i] is the first line with its hash. */
  predicate IsFirst(H: seq<byte> -> uint64, lines: seq<seq<byte>>, i: nat)
    requires i < |lines|
  {
    forall j :: 0 <= j < i ==> H(lines[j]) != H(lines[i])
  }

  /** l occurs among the lines, there as the first of its hash. */
  ghost predicate OccursFirst(H: seq<byte> -> uint64, lines: seq<seq<byte>>, l: seq<byte>) {
    exists i :: 0 <= i < |lines| && lines[i] == l && IsFirst(H, lines, i)
  }

  lemma FirstInPrefix(H: seq<byte> -> uint64, lines: seq<seq<byte>>, n: nat, j: nat)
    requires j < n <= |lines|
    ensures IsFirst(H, lines[..n], j) <==> IsFirst(H, lines, j)
  {
    var before := lines[..n];
    assert forall i :: 0 <= i <= j ==> before[i] == lines[i];
  }

  lemma OccursFirstStep(H: seq<byte> -> uint64, lines: seq<seq<byte>>, l: seq<byte>)
    requires lines != []
    ensures var n := |lines| - 1;
            OccursFirst(H, lines, l) <==> OccursFirst(H, lines[..n], l) || (lines[n] == l && IsFirst(H, lines, n))
  {
    var n := |lines| - 1;
    var before := lines[..n];
    forall j | 0 <= j < n ensures IsFirst(H, before, j) <==> IsFirst(H, lines, j) { FirstInPrefix(H, lines, n, j); }
    if OccursFirst(H, before, l) {
      var i :| 0 <= i < n && before[i] == l && IsFirst(H, before, i);
      assert lines[i] == l && IsFirst(H, lines, i);
    }
    if i :| 0 <= i < n && lines[i] == l && IsFirst(H, lines, i) {
      assert before[i] == l && IsFirst(H, before, i);
    }
  }

  /** A line is kept exactly when it occurs as the first of its hash. */
  lemma {:induction false} FirstsAreKept(H: seq<byte> -> uint64, lines: seq<seq<byte>>, l: seq<byte>)
    ensures l in Firsts(H, lines) <==> OccursFirst(H, lines, l)
    decreases |lines|
  {
    if lines != [] {
      FirstsAreKept(H, lines[..|lines| - 1], l);
      OccursFirstStep(H, lines, l);
    }
  }

  /** No two kept lines share a hash. */
  lemma {:induction false} FirstsAreDistinct(H: seq<byte> -> uint64, lines: seq<seq<byte>>, i: nat, j: nat)
    requires i < j < |Firsts(H, lines)|
    ensures H(Firsts(H, lines)[i]) != H(Firsts(H, lines)[j])
    decreases |lines|
  {
    var n := |lines| - 1;
    var before := lines[..n];
    if j < |Firsts(H, before)| {
      FirstsAreDistinct(H, before, i, j);
    } else {
      var l := Firsts(H, before)[i];
      FirstsAreKept(H, before, l);
      var m :| 0 <= m < n && before[m] == l && IsFirst(H, before, m);
      assert lines[m] == l;
    }
  }

  /** A line with that hash is among the lines. */
  ghost predicate HasHash(H: seq<byte> -> uint64, lines: seq<seq<byte>>, h: nat) {
    exists i :: 0 <= i < |lines| && H(lines[i]) == h
  }

  /** In either mode the hashes noted are those of the lines. */
  lemma {:induction false} HashesAreNoted(H: seq<byte> -> uint64, repeated: bool, lines: seq<seq<byte>>, h: nat)
    ensures h in NoteAll(H, repeated, Seen({}, []), lines).hashes <==> HasHash(H, lines, h)
    decreases |lines|
  {
    if lines != [] {
      var n := |lines| - 1;
      HashesAreNoted(H, repeated, lines[..n], h);
      assert forall j :: 0 <= j < n ==> lines[..n][j] == lines[j];
    }
  }

  /** Unique mode from an empty table prints the first line of every hash, each followed by a newline. */
  lemma {:induction false} UniqueModePrintsFirsts(H: seq<byte> -> uint64, lines: seq<seq<byte>>)
    ensures NoteAll(H, false, Seen({}, []), lines).out == Join(Firsts(H, lines), [])
    decreases |lines|
  {
    if lines != [] {
      var n := |lines| - 1;
      UniqueModePrintsFirsts(H, lines[..n]);
      HashesAreNoted(H, false, lines[..n], H(lines[n]));
      assert forall j :: 0 <= j < n ==> lines[..n][j] == lines[j];
      JoinOneMore(Firsts(H, lines[..n]), lines[n]);
      assert Firsts(H, lines[..n]) + [] == Firsts(H, lines[..n]);
    }
  }

  /** The lines whose hash has occurred before. */
  function Repeats(H: seq<byte> -> uint64, lines: seq<seq<byte>>): seq<seq<byte>>
    decreases |lines|
  {
    if lines == [] then []
    else
      var n := |lines| - 1;
      Repeats(H, lines[..n]) + if exists j :: 0 <= j < n && H(lines[j]) == H(lines[n]) then [lines[n]] else []
  }

  /** With -D exactly the other lines are printed. */
  lemma {:induction false} RepeatedModePrintsRepeats(H: seq<byte> -> uint64, lines: seq<seq<byte>>)
    ensures NoteAll(H, true, Seen({}, []), lines).out == Join(Repeats(H, lines), [])
    decreases |lines|
  {
    if lines != [] {
      var n := |lines| - 1;
      RepeatedModePrintsRepeats(H, lines[..n]);
      HashesAreNoted(H, true, lines[..n], H(lines[n]));
      assert forall j :: 0 <= j < n ==> lines[..n][j] == lines[j];
      JoinOneMore(Repeats(H, lines[..n]), lines[n]);
      assert Repeats(H, lines[..n]) + [] == Repeats(H, lines[..n]);
    }
  }

  lemma OneMoreOfEither(f: seq<seq<byte>>, r: seq<seq<byte>>, ls: seq<seq<byte>>, l: seq<byte>, seen: bool)
    requires multiset(f) + multiset(r) == multiset(ls)
    ensures multiset(f + if seen then [] else [l]) + multiset(r + if seen then [l] else []) == multiset(ls + [l])
  {
    assert f + [] == f && r + [] == r;
  }

  /** The two modes divide the lines between them. */
  lemma {:induction false} ModesPartition(H: seq<byte> -> uint64, lines: seq<seq<byte>>)
    ensures multiset(Firsts(H, lines)) + multiset(Repeats(H, lines)) == multiset(lines)
    decreases |lines|
  {
    if lines != [] {
      var n := |lines| - 1;
      ModesPartition(H, lines[..n]);
      assert lines == lines[..n] + [lines[n]];
      var seen := exists j :: 0 <= j < n && H(lines[j]) == H(lines[n]);
      OneMoreOfEither(Firsts(H, lines[..n]), Repeats(H, lines[..n]), lines[..n], lines[n], seen);
    }
  }

  lemma {:induction false} JoinOneMore(ls: seq<seq<byte>>, l: seq<byte>)
    ensures Join(ls + [l], []) == Join(ls, []) + l + [NL]
  {
    if ls == [] {
      assert [l][1..] == [] && Join([l], []) == l + [NL] + Join([], []);
    } else {
      JoinOneMore(ls[1..], l);
      assert (ls + [l])[1..] == ls[1..] + [l];
    }
  }

  // ----- a run up to the end of the input, read by read

  /** Doubling the table once more items are stored than the threshold for its size. */
  function Settle(threshold: nat -> nat, st: St): St
    requires |st.table| > 0
  {
    if st.items > threshold(|st.table|) then st.(table := Resized(st.table)) else st
  }

  /** Each read returns at least one byte and no more than fits behind the waiting tail. */
  predicate ReadsFit(pending: seq<byte>, chunks: seq<seq<byte>>, cap: nat)
    requires cap > 0
    decreases |chunks|
  {
    chunks == [] ||
    (0 < |chunks[0]| && |pending| + |chunks[0]| <= cap
     && ReadsFit(Split(pending + chunks[0], cap).rest, chunks[1..], cap))
  }

  /** Split, handle the lines, perhaps double the table; then the next read. */
  function AfterReads(H: seq<byte> -> uint64, repeated: bool, threshold: nat -> nat, cap: nat,
                      st: St, pending: seq<byte>, chunks: seq<seq<byte>>): (r: St)
    requires cap > 0 && |st.table| > 0
    ensures |r.table| > 0
    decreases |chunks|
  {
    if chunks == [] then st
    else
      var cut := Split(pending + chunks[0], cap);
      AfterReads(H, repeated, threshold, cap, Settle(threshold, EmitAll(H, repeated, st, cut.lines)), cut.rest,
                 chunks[1..])
  }

  /** No insertion gives up, no line hashes to 0, and every doubling finds the last slot empty. */
  ghost predicate LosslessReads(H: seq<byte> -> uint64, repeated: bool, threshold: nat -> nat, cap: nat,
                                st: St, pending: seq<byte>, chunks: seq<seq<byte>>)
    requires cap > 0 && |st.table| > 0
    decreases |chunks|
  {
    chunks != [] ==>
      var cut := Split(pending + chunks[0], cap);
      var st1 := EmitAll(H, repeated, st, cut.lines);
      && Lossless(H, repeated, st, cut.lines)
      && (st1.items > threshold(|st1.table|) ==> st1.table[|st1.table| - 1] == 0)
      && LosslessReads(H, repeated, threshold, cap, Settle(threshold, st1), cut.rest, chunks[1..])
  }

  function Flatten(chunks: seq<seq<byte>>): seq<byte> {
    if chunks == [] then [] else chunks[0] + Flatten(chunks[1..])
  }

  lemma {:induction false} FlattenLast(chunks: seq<seq<byte>>)
    requires chunks != []
    ensures Flatten(chunks) == Flatten(chunks[..|chunks| - 1]) + chunks[|chunks| - 1]
    decreases |chunks|
  {
    var n := |chunks| - 1;
    if n > 0 {
      FlattenLast(chunks[1..]);
      assert chunks[1..][..n - 1] == chunks[..n][1..];
    } else {
      assert chunks[..n] == [] && chunks[1..] == [];
    }
  }

  /** Read i fits, and so do the later ones once it is done. */
  lemma NextRead(input: seq<byte>, chunks: seq<seq<byte>>, i: nat, cap: nat)
    requires cap > 0 && i < |chunks| && input == Flatten(chunks[..i])
    requires ReadsFit(Split(input, cap).rest, chunks[i..], cap)
    ensures 0 < |chunks[i]| && |Split(input, cap).rest| + |chunks[i]| <= cap
    ensures input + chunks[i] == Flatten(chunks[..i + 1])
    ensures ReadsFit(Split(input + chunks[i], cap).rest, chunks[i + 1..], cap)
  {
    assert chunks[i..][0] == chunks[i] && chunks[i..][1..] == chunks[i + 1..];
    assert chunks[..i + 1][..i] == chunks[..i];
    FlattenLast(chunks[..i + 1]);
    SplitAppend(input, chunks[i], cap);
  }

  lemma SettleKeepsView(threshold: nat -> nat, st: St)
    requires WellFormed(st.table)
    requires st.items > threshold(|st.table|) ==> st.table[|st.table| - 1] == 0
    ensures WellFormed(Settle(threshold, st).table) && View(Settle(threshold, st)) == View(st)
  {
    ResizePreservesIff(st.table);
  }

  /** However the input is cut into reads, a lossless run notes the lines of the whole input. */
  lemma {:induction false} ReadsRefineLines(H: seq<byte> -> uint64, repeated: bool, threshold: nat -> nat, cap: nat,
                                            st: St, pending: seq<byte>, chunks: seq<seq<byte>>)
    requires cap > 0 && WellFormed(st.table) && |pending| < cap && NL !in pending
    requires LosslessReads(H, repeated, threshold, cap, st, pending, chunks)
    ensures View(AfterReads(H, repeated, threshold, cap, st, pending, chunks))
            == NoteAll(H, repeated, View(st), Split(pending + Flatten(chunks), cap).lines)
    decreases |chunks|
  {
    if chunks == [] {
      assert pending + Flatten(chunks) == pending;
      NothingToSplit(pending, cap);
    } else {
      var cut := Split(pending + chunks[0], cap);
      var st2 := Settle(threshold, EmitAll(H, repeated, st, cut.lines));
      OneReadRefines(H, repeated, threshold, st, cut.lines);
      LinesAreClean(pending + chunks[0], cap);
      ReadsRefineLines(H, repeated, threshold, cap, st2, cut.rest, chunks[1..]);
      NoteOneRead(H, repeated, View(st), pending, chunks[0], Flatten(chunks[1..]), cap);
    }
  }

  lemma NothingToSplit(s: seq<byte>, cap: nat)
    requires |s| < cap && NL !in s
    ensures Split(s, cap) == Cut([], s)
  {
    FirstNlUnique(s, |s|);
    assert HeadOf(s, cap) == NoLine;
  }

  lemma OneReadRefines(H: seq<byte> -> uint64, repeated: bool, threshold: nat -> nat, st: St, lines: seq<seq<byte>>)
    requires WellFormed(st.table) && Lossless(H, repeated, st, lines)
    requires var st1 := EmitAll(H, repeated, st, lines);
             st1.items > threshold(|st1.table|) ==> st1.table[|st1.table| - 1] == 0
    ensures var st2 := Settle(threshold, EmitAll(H, repeated, st, lines));
            WellFormed(st2.table) && View(st2) == NoteAll(H, repeated, View(st), lines)
  {
    TableRefinesSet(H, repeated, st, lines);
    SettleKeepsView(threshold, EmitAll(H, repeated, st, lines));
  }

  lemma NoteOneRead(H: seq<byte> -> uint64, repeated: bool, seen: Seen, pending: seq<byte>, first: seq<byte>,
                    later: seq<byte>, cap: nat)
    requires cap > 0
    ensures var cut := Split(pending + first, cap);
            NoteAll(H, repeated, seen, Split(pending + (first + later), cap).lines)
            == NoteAll(H, repeated, NoteAll(H, repeated, seen, cut.lines), Split(cut.rest + later, cap).lines)
  {
    var cut := Split(pending + first, cap);
    SplitAppend(pending + first, later, cap);
    assert pending + (first + later) == pending + first + later;
    NoteAppend(H, repeated, seen, cut.lines, Split(cut.rest + later, cap).lines);
  }

  /**
   From an empty table, up to the end of the input, a lossless unique-mode run prints exactly the
   first line of every hash of the input, in order, each followed by a newline.
   */
  lemma UniqueRunPrintsFirsts(H: seq<byte> -> uint64, threshold: nat -> nat, cap: nat, size: nat,
                              chunks: seq<seq<byte>>)
    requires cap > 0 && size > 0
    requires LosslessReads(H, false, threshold, cap, St(Zeros(size), 0, []), [], chunks)
    ensures AfterReads(H, false, threshold, cap, St(Zeros(size), 0, []), [], chunks).out
            == Join(Firsts(H, Split(Flatten(chunks), cap).lines), [])
  {
    var st := St(Zeros(size), 0, []);
    ZerosWellFormed(size);
    ReadsRefineLines(H, false, threshold, cap, st, [], chunks);
    assert [] + Flatten(chunks) == Flatten(chunks);
    UniqueModePrintsFirsts(H, Split(Flatten(chunks), cap).lines);
    assert View(AfterReads(H, false, threshold, cap, st, [], chunks)).out
           == AfterReads(H, false, threshold, cap, st, [], chunks).out;
  }

  /** Up to the end of the input, the same run with -D prints every other line of it. */
  lemma RepeatedRunPrintsRepeats(H: seq<byte> -> uint64, threshold: nat -> nat, cap: nat, size: nat,
                                 chunks: seq<seq<byte>>)
    requires cap > 0 && size > 0
    requires LosslessReads(H, true, threshold, cap, St(Zeros(size), 0, []), [], chunks)
    ensures AfterReads(H, true, threshold, cap, St(Zeros(size), 0, []), [], chunks).out
            == Join(Repeats(H, Split(Flatten(chunks), cap).lines), [])
  {
    var st := St(Zeros(size), 0, []);
    ZerosWellFormed(size);
    ReadsRefineLines(H, true, threshold, cap, st, [], chunks);
    assert [] + Flatten(chunks) == Flatten(chunks);
    RepeatedModePrintsRepeats(H, Split(Flatten(chunks), cap).lines);
    assert View(AfterReads(H, true, threshold, cap, st, [], chunks)).out
           == AfterReads(H, true, threshold, cap, st, [], chunks).out;
  }
}
