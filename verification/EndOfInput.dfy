/**
 The last turn of mmuniq's loop, in which read() returns 0: the whole read buffer is handled as one
 more line, under the hash of what stands in front of its first newline.  What the buffer then
 holds, when that turn prints, and for which inputs the output is still the right one.
 */
module EndOfInput {
  import opened Basics
  import opened Lines
  import opened HashTable
  import opened Dedup
  import opened DedupRuns

  // ----- the buffer

  /** The buffer after a read: the unfinished line in front, and behind it what was there. */
  function BufferAfterRead(buffer: seq<byte>, pending: seq<byte>, bytes: seq<byte>): (r: seq<byte>)
    requires 0 < |buffer| && |pending| + |bytes| <= |buffer|
    ensures |r| == |buffer|
  {
    var rest := Split(pending + bytes, |buffer|).rest;
    rest + (pending + bytes + buffer[|pending| + |bytes|..])[|rest|..]
  }

  function BufferAfter(buffer: seq<byte>, pending: seq<byte>, chunks: seq<seq<byte>>): (r: seq<byte>)
    requires 0 < |buffer| && ReadsFit(pending, chunks, |buffer|)
    ensures |r| == |buffer|
    decreases |chunks|
  {
    if chunks == [] then buffer
    else
      BufferAfter(BufferAfterRead(buffer, pending, chunks[0]), Split(pending + chunks[0], |buffer|).rest, chunks[1..])
  }

  /** The unfinished line after a sequence of reads. */
  function TailAfter(pending: seq<byte>, chunks: seq<seq<byte>>, cap: nat): seq<byte>
    requires cap > 0
    decreases |chunks|
  {
    if chunks == [] then pending else TailAfter(Split(pending + chunks[0], cap).rest, chunks[1..], cap)
  }

  lemma {:induction false} TailIsRest(pending: seq<byte>, chunks: seq<seq<byte>>, cap: nat)
    requires cap > 0 && |pending| < cap && NL !in pending
    ensures TailAfter(pending, chunks, cap) == Split(pending + Flatten(chunks), cap).rest
    decreases |chunks|
  {
    if chunks == [] {
      assert pending + Flatten(chunks) == pending;
      NothingToSplit(pending, cap);
    } else {
      var first := pending + chunks[0];
      LinesAreClean(first, cap);
      TailIsRest(Split(first, cap).rest, chunks[1..], cap);
      RestAppend(first, Flatten(chunks[1..]), pending + Flatten(chunks), cap);
    }
  }

  lemma RestAppend(first: seq<byte>, later: seq<byte>, whole: seq<byte>, cap: nat)
    requires cap > 0 && whole == first + later
    ensures Split(whole, cap).rest == Split(Split(first, cap).rest + later, cap).rest
  {
    SplitAppend(first, later, cap);
  }

  /** The last read, with the buffer and the unfinished line that it finds. */
  lemma {:induction false} LastRead(buffer: seq<byte>, pending: seq<byte>, chunks: seq<seq<byte>>)
    requires 0 < |buffer| && chunks != [] && ReadsFit(pending, chunks, |buffer|)
    ensures var n, cap := |chunks| - 1, |buffer|;
            && ReadsFit(pending, chunks[..n], cap)
            && |TailAfter(pending, chunks[..n], cap)| + |chunks[n]| <= cap
            && 0 < |chunks[n]|
            && BufferAfter(buffer, pending, chunks)
               == BufferAfterRead(BufferAfter(buffer, pending, chunks[..n]), TailAfter(pending, chunks[..n], cap),
                                  chunks[n])
            && TailAfter(pending, chunks, cap)
               == Split(TailAfter(pending, chunks[..n], cap) + chunks[n], cap).rest
    decreases |chunks|
  {
    var n := |chunks| - 1;
    if n > 0 {
      var next, rest := BufferAfterRead(buffer, pending, chunks[0]), Split(pending + chunks[0], |buffer|).rest;
      LastRead(next, rest, chunks[1..]);
      assert chunks[1..][..n - 1] == chunks[..n][1..];
    }
  }

  // ----- the last line

  function FirstLine(s: seq<byte>): seq<byte> {
    s[..FirstNl(s)]
  }

  /** The lines that end in the last read. */
  function LinesOfLastRead(chunks: seq<seq<byte>>, cap: nat): seq<seq<byte>>
    requires cap > 0 && chunks != []
  {
    var n := |chunks| - 1;
    Split(Split(Flatten(chunks[..n]), cap).rest + chunks[n], cap).lines
  }

  /** They are the last lines of the input. */
  lemma LastLinesOfInput(chunks: seq<seq<byte>>, cap: nat)
    requires cap > 0 && chunks != []
    ensures Split(Flatten(chunks), cap).lines
            == Split(Flatten(chunks[..|chunks| - 1]), cap).lines + LinesOfLastRead(chunks, cap)
  {
    FlattenLast(chunks);
    SplitAppend(Flatten(chunks[..|chunks| - 1]), chunks[|chunks| - 1], cap);
  }

  /** A text that leaves no tail begins with a line, and whatever follows does not change it. */
  lemma FirstOfFinished(s: seq<byte>, later: seq<byte>, cap: nat)
    requires 0 < |s| <= cap && |s| + |later| == cap && Split(s, cap).rest == []
    ensures Split(s, cap).lines != [] && FirstLine(s + later) == Split(s, cap).lines[0]
  {
    FirstNlAppend(s, later);
    FirstNlFinds(s);
  }

  /** A tail goes on into the stale bytes behind it. */
  lemma FirstOfTail(tail: seq<byte>, stale: seq<byte>)
    requires NL !in tail
    ensures FirstLine(tail + stale) == tail + FirstLine(stale)
  {
    var k := FirstNl(stale);
    var s := tail + stale;
    FirstNlFinds(stale);
    forall i | 0 <= i < |tail| + k ensures s[i] != NL {
      if i >= |tail| { assert s[i] == stale[i - |tail|]; }
    }
    assert k < |stale| ==> s[|tail| + k] == stale[k];
    FirstNlUnique(s, |tail| + k);
  }

  /**
   What the last turn takes the hash of.  When the input leaves no tail it is the first line that
   the last read completed; otherwise it is the tail and the stale bytes behind it up to a newline.
   */
  lemma LastLineIs(buffer: seq<byte>, chunks: seq<seq<byte>>)
    requires 0 < |buffer| && chunks != [] && ReadsFit([], chunks, |buffer|)
    ensures var cap, whole := |buffer|, BufferAfter(buffer, [], chunks);
            var tail := Split(Flatten(chunks), cap).rest;
            && tail <= whole
            && if tail == [] then LinesOfLastRead(chunks, cap) != []
                                  && FirstLine(whole) == LinesOfLastRead(chunks, cap)[0]
               else FirstLine(whole) == tail + FirstLine(whole[|tail|..])
  {
    var n, cap, whole := |chunks| - 1, |buffer|, BufferAfter(buffer, [], chunks);
    var before := TailAfter([], chunks[..n], cap);
    var tail := Split(Flatten(chunks), cap).rest;
    LastRead(buffer, [], chunks);
    TailIsRest([], chunks[..n], cap);
    TailIsRest([], chunks, cap);
    assert [] + Flatten(chunks) == Flatten(chunks) && [] + Flatten(chunks[..n]) == Flatten(chunks[..n]);
    LastBuffer(BufferAfter(buffer, [], chunks[..n]), before, chunks[n]);
  }

  lemma LastBuffer(buffer: seq<byte>, pending: seq<byte>, bytes: seq<byte>)
    requires 0 < |buffer| && |pending| + |bytes| <= |buffer| && 0 < |bytes|
    ensures var cut, whole := Split(pending + bytes, |buffer|), BufferAfterRead(buffer, pending, bytes);
            && cut.rest <= whole
            && if cut.rest == [] then cut.lines != [] && FirstLine(whole) == cut.lines[0]
               else FirstLine(whole) == cut.rest + FirstLine(whole[|cut.rest|..])
  {
    var s, later := pending + bytes, buffer[|pending| + |bytes|..];
    var cut, whole := Split(s, |buffer|), BufferAfterRead(buffer, pending, bytes);
    if cut.rest == [] {
      assert whole == s + later;
      FirstOfFinished(s, later, |buffer|);
    } else {
      LinesAreClean(s, |buffer|);
      assert whole == cut.rest + whole[|cut.rest|..];
      FirstOfTail(cut.rest, whole[|cut.rest|..]);
    }
  }

  // ----- a whole run

  /** Where the reads lead from here. */
  datatype Goal = Goal(st: St, buffer: seq<byte>, tail: seq<byte>)

  ghost predicate ReadsLeadTo(H: seq<byte> -> uint64, repeated: bool, threshold: nat -> nat, st: St, buffer: seq<byte>,
                              pending: seq<byte>, chunks: seq<seq<byte>>, goal: Goal)
  {
    && 0 < |buffer| && |st.table| > 0 && ReadsFit(pending, chunks, |buffer|)
    && goal == Goal(AfterReads(H, repeated, threshold, |buffer|, st, pending, chunks),
                    BufferAfter(buffer, pending, chunks), TailAfter(pending, chunks, |buffer|))
  }

  /** One read closer. */
  lemma OneReadCloser(H: seq<byte> -> uint64, repeated: bool, threshold: nat -> nat, st: St, buffer: seq<byte>,
                      pending: seq<byte>, chunks: seq<seq<byte>>, i: nat, goal: Goal)
    requires i < |chunks| && ReadsLeadTo(H, repeated, threshold, st, buffer, pending, chunks[i..], goal)
    ensures 0 < |chunks[i]| && |pending| + |chunks[i]| <= |buffer|
    ensures var cut := Split(pending + chunks[i], |buffer|);
            ReadsLeadTo(H, repeated, threshold, Settle(threshold, EmitAll(H, repeated, st, cut.lines)),
                        BufferAfterRead(buffer, pending, chunks[i]), cut.rest, chunks[i + 1..], goal)
  {
    assert chunks[i..][0] == chunks[i] && chunks[i..][1..] == chunks[i + 1..];
  }

  /** The reads, and then the last turn. */
  function WholeRun(H: seq<byte> -> uint64, repeated: bool, threshold: nat -> nat, buffer: seq<byte>, st: St,
                    chunks: seq<seq<byte>>): St
    requires 0 < |buffer| && |st.table| > 0 && ReadsFit([], chunks, |buffer|)
  {
    var whole := BufferAfter(buffer, [], chunks);
    EmitAs(H(FirstLine(whole)), repeated, AfterReads(H, repeated, threshold, |buffer|, st, [], chunks), whole)
  }

  /** What the last turn prints, if it prints. */
  function Extra(prints: bool, whole: seq<byte>): seq<byte> {
    if prints then whole + [NL] else []
  }

  /** In a well-formed table: with -D a stored hash prints, in unique mode one that is not and finds a slot. */
  ghost predicate LastPrints(repeated: bool, t: seq<nat>, h: nat)
    requires |t| > 0
  {
    if repeated then Stored(t, h) else !Stored(t, h) && !GivesUp(t, h)
  }

  lemma EmitAsPrintsIff(h: nat, repeated: bool, st: St, line: seq<byte>)
    requires WellFormed(st.table)
    ensures EmitAs(h, repeated, st, line).out == st.out + Extra(LastPrints(repeated, st.table, h), line)
  {
    InsertCorrect(st.table, h);
  }

  /**
   Exactly when the last turn of any run prints: with -D when the hash of the last line was stored
   by some step and not lost by a doubling since, in unique mode when it was not and its probe does
   not give up.
   */
  lemma LastTurnPrintsIff(H: seq<byte> -> uint64, repeated: bool, threshold: nat -> nat, buffer: seq<byte>, size: nat,
                          chunks: seq<seq<byte>>)
    requires 0 < |buffer| && size > 0 && ReadsFit([], chunks, |buffer|)
    ensures var st, whole := St(Zeros(size), 0, []), BufferAfter(buffer, [], chunks);
            var ops, h := Steps(H, repeated, threshold, |buffer|, st, [], chunks), H(FirstLine(whole));
            var known := h != 0 && Keeps(H, Zeros(size), ops, h);
            var prints := if repeated then known else !known && !GivesUp(After(H, Zeros(size), ops), h);
            WholeRun(H, repeated, threshold, buffer, st, chunks).out
            == AfterReads(H, repeated, threshold, |buffer|, st, [], chunks).out + Extra(prints, whole)
  {
    var st, whole := St(Zeros(size), 0, []), BufferAfter(buffer, [], chunks);
    var ops, h := Steps(H, repeated, threshold, |buffer|, st, [], chunks), H(FirstLine(whole));
    ZerosWellFormed(size);
    RunLeads(H, repeated, threshold, |buffer|, st, [], chunks);
    AfterIsWellFormed(H, Zeros(size), ops);
    if h != 0 { StoredIff(H, Zeros(size), ops, h); }
    EmitAsPrintsIff(h, repeated, AfterReads(H, repeated, threshold, |buffer|, st, [], chunks), whole);
  }

  /** With -D the output of a whole run: repeated lines of the input only, and what the last turn adds. */
  lemma RepeatedWholeRun(H: seq<byte> -> uint64, threshold: nat -> nat, buffer: seq<byte>, size: nat,
                         chunks: seq<seq<byte>>)
    returns (printed: seq<seq<byte>>)
    requires 0 < |buffer| && size > 0 && ReadsFit([], chunks, |buffer|)
    ensures var st, whole := St(Zeros(size), 0, []), BufferAfter(buffer, [], chunks);
            var ops, h := Steps(H, true, threshold, |buffer|, st, [], chunks), H(FirstLine(whole));
            && Subsequence(printed, Repeats(H, Split(Flatten(chunks), |buffer|).lines))
            && WholeRun(H, true, threshold, buffer, st, chunks).out
               == Join(printed, []) + Extra(h != 0 && Keeps(H, Zeros(size), ops, h), whole)
  {
    LastTurnPrintsIff(H, true, threshold, buffer, size, chunks);
    printed := RepeatedRunPrintsOnlyRepeats(H, threshold, |buffer|, size, chunks);
  }

  /** In unique mode, if no probe of a new hash gives up: every first line in order, and what the last turn adds. */
  lemma UniqueWholeRun(H: seq<byte> -> uint64, threshold: nat -> nat, buffer: seq<byte>, size: nat,
                       chunks: seq<seq<byte>>)
    returns (printed: seq<seq<byte>>)
    requires 0 < |buffer| && size > 0 && ReadsFit([], chunks, |buffer|)
    requires var ops := Steps(H, false, threshold, |buffer|, St(Zeros(size), 0, []), [], chunks);
             forall j :: 0 <= j < |ops| ==> FirstFinds(H, Zeros(size), ops, j)
    ensures var st, whole := St(Zeros(size), 0, []), BufferAfter(buffer, [], chunks);
            var ops, h := Steps(H, false, threshold, |buffer|, st, [], chunks), H(FirstLine(whole));
            var known := h != 0 && Keeps(H, Zeros(size), ops, h);
            && Subsequence(Firsts(H, Split(Flatten(chunks), |buffer|).lines), printed)
            && WholeRun(H, false, threshold, buffer, st, chunks).out
               == Join(printed, []) + Extra(!known && !GivesUp(After(H, Zeros(size), ops), h), whole)
  {
    LastTurnPrintsIff(H, false, threshold, buffer, size, chunks);
    printed := UniqueRunPrintsAllFirsts(H, threshold, |buffer|, size, chunks);
  }

  // ----- runs that lose nothing

  /** After a lossless run the table stores exactly the hashes of the lines of the input. */
  lemma LosslessTable(H: seq<byte> -> uint64, repeated: bool, threshold: nat -> nat, cap: nat, size: nat,
                      chunks: seq<seq<byte>>, h: nat)
    requires cap > 0 && size > 0
    requires LosslessReads(H, repeated, threshold, cap, St(Zeros(size), 0, []), [], chunks)
    ensures var t := AfterReads(H, repeated, threshold, cap, St(Zeros(size), 0, []), [], chunks).table;
            WellFormed(t) && (Stored(t, h) <==> HasHash(H, Split(Flatten(chunks), cap).lines, h))
  {
    var st := St(Zeros(size), 0, []);
    ZerosWellFormed(size);
    RunLeads(H, repeated, threshold, cap, st, [], chunks);
    AfterIsWellFormed(H, Zeros(size), Steps(H, repeated, threshold, cap, st, [], chunks));
    ReadsRefineLines(H, repeated, threshold, cap, st, [], chunks);
    assert [] + Flatten(chunks) == Flatten(chunks);
    HashesAreNoted(H, repeated, Split(Flatten(chunks), cap).lines, h);
    StoredIsValue(AfterReads(H, repeated, threshold, cap, st, [], chunks), h);
  }

  lemma StoredIsValue(st: St, h: nat)
    ensures Stored(st.table, h) <==> h in View(st).hashes
  {
  }

  /** The output of a lossless run of unique mode. */
  lemma LosslessUniqueRun(H: seq<byte> -> uint64, threshold: nat -> nat, buffer: seq<byte>, size: nat,
                          chunks: seq<seq<byte>>)
    requires 0 < |buffer| && size > 0 && ReadsFit([], chunks, |buffer|)
    requires LosslessReads(H, false, threshold, |buffer|, St(Zeros(size), 0, []), [], chunks)
    ensures var st, lines := St(Zeros(size), 0, []), Split(Flatten(chunks), |buffer|).lines;
            var whole := BufferAfter(buffer, [], chunks);
            var h, t := H(FirstLine(whole)), AfterReads(H, false, threshold, |buffer|, st, [], chunks).table;
            WholeRun(H, false, threshold, buffer, st, chunks).out
            == Join(Firsts(H, lines), []) + Extra(!HasHash(H, lines, h) && !GivesUp(t, h), whole)
  {
    var st, whole := St(Zeros(size), 0, []), BufferAfter(buffer, [], chunks);
    UniqueRunPrintsFirsts(H, threshold, |buffer|, size, chunks);
    LosslessTable(H, false, threshold, |buffer|, size, chunks, H(FirstLine(whole)));
    EmitAsPrintsIff(H(FirstLine(whole)), false, AfterReads(H, false, threshold, |buffer|, st, [], chunks), whole);
  }

  /** The output of a lossless run with -D. */
  lemma LosslessRepeatedRun(H: seq<byte> -> uint64, threshold: nat -> nat, buffer: seq<byte>, size: nat,
                            chunks: seq<seq<byte>>)
    requires 0 < |buffer| && size > 0 && ReadsFit([], chunks, |buffer|)
    requires LosslessReads(H, true, threshold, |buffer|, St(Zeros(size), 0, []), [], chunks)
    ensures var st, lines := St(Zeros(size), 0, []), Split(Flatten(chunks), |buffer|).lines;
            var whole := BufferAfter(buffer, [], chunks);
            WholeRun(H, true, threshold, buffer, st, chunks).out
            == Join(Repeats(H, lines), []) + Extra(HasHash(H, lines, H(FirstLine(whole))), whole)
  {
    var st, whole := St(Zeros(size), 0, []), BufferAfter(buffer, [], chunks);
    RepeatedRunPrintsRepeats(H, threshold, |buffer|, size, chunks);
    LosslessTable(H, true, threshold, |buffer|, size, chunks, H(FirstLine(whole)));
    EmitAsPrintsIff(H(FirstLine(whole)), true, AfterReads(H, true, threshold, |buffer|, st, [], chunks), whole);
  }

  /** The lines of the input, among them an unfinished one at its end. */
  function AllLines(input: seq<byte>, cap: nat): seq<seq<byte>>
    requires cap > 0
  {
    var cut := Split(input, cap);
    if cut.rest == [] then cut.lines else cut.lines + [cut.rest]
  }

  /**
   When a lossless run of unique mode prints what it should, the first lines of the input with its
   unfinished one: exactly when that one is no news, and the last turn finds nothing new either.
   */
  lemma UniqueRunIsRightIff(H: seq<byte> -> uint64, threshold: nat -> nat, buffer: seq<byte>, size: nat,
                            chunks: seq<seq<byte>>)
    requires 0 < |buffer| && size > 0 && ReadsFit([], chunks, |buffer|)
    requires LosslessReads(H, false, threshold, |buffer|, St(Zeros(size), 0, []), [], chunks)
    ensures var st, input := St(Zeros(size), 0, []), Flatten(chunks);
            var cut, h := Split(input, |buffer|), H(FirstLine(BufferAfter(buffer, [], chunks)));
            var t := AfterReads(H, false, threshold, |buffer|, st, [], chunks).table;
            WholeRun(H, false, threshold, buffer, st, chunks).out == Join(Firsts(H, AllLines(input, |buffer|)), [])
            <==> (cut.rest == [] || HasHash(H, cut.lines, H(cut.rest))) && (HasHash(H, cut.lines, h) || GivesUp(t, h))
  {
    var whole, cut := BufferAfter(buffer, [], chunks), Split(Flatten(chunks), |buffer|);
    var h := H(FirstLine(whole));
    var t := AfterReads(H, false, threshold, |buffer|, St(Zeros(size), 0, []), [], chunks).table;
    LosslessUniqueRun(H, threshold, buffer, size, chunks);
    RepeatsOneMore(H, cut.lines, cut.rest);
    var wanted := if cut.rest != [] && !HasHash(H, cut.lines, H(cut.rest)) then [cut.rest] else [];
    assert Firsts(H, cut.lines) + [] == Firsts(H, cut.lines);
    ExtraIsRightIff(Firsts(H, cut.lines), !HasHash(H, cut.lines, h) && !GivesUp(t, h), whole, wanted, cut.rest);
  }

  /** The same with -D, where the lines to print are the repeated ones. */
  lemma RepeatedRunIsRightIff(H: seq<byte> -> uint64, threshold: nat -> nat, buffer: seq<byte>, size: nat,
                              chunks: seq<seq<byte>>)
    requires 0 < |buffer| && size > 0 && ReadsFit([], chunks, |buffer|)
    requires LosslessReads(H, true, threshold, |buffer|, St(Zeros(size), 0, []), [], chunks)
    ensures var st, input := St(Zeros(size), 0, []), Flatten(chunks);
            var cut, h := Split(input, |buffer|), H(FirstLine(BufferAfter(buffer, [], chunks)));
            WholeRun(H, true, threshold, buffer, st, chunks).out == Join(Repeats(H, AllLines(input, |buffer|)), [])
            <==> (cut.rest == [] || !HasHash(H, cut.lines, H(cut.rest))) && !HasHash(H, cut.lines, h)
  {
    var whole, cut := BufferAfter(buffer, [], chunks), Split(Flatten(chunks), |buffer|);
    LosslessRepeatedRun(H, threshold, buffer, size, chunks);
    RepeatsOneMore(H, cut.lines, cut.rest);
    var wanted := if cut.rest != [] && HasHash(H, cut.lines, H(cut.rest)) then [cut.rest] else [];
    assert Repeats(H, cut.lines) + [] == Repeats(H, cut.lines);
    ExtraIsRightIff(Repeats(H, cut.lines), HasHash(H, cut.lines, H(FirstLine(whole))), whole, wanted, cut.rest);
  }

  /** The buffer is longer than any tail: the last turn is right only where nothing is wanted and nothing printed. */
  lemma ExtraIsRightIff(ls: seq<seq<byte>>, prints: bool, whole: seq<byte>, wanted: seq<seq<byte>>, tail: seq<byte>)
    requires |tail| < |whole| && wanted in {[], [tail]}
    ensures Join(ls, []) + Extra(prints, whole) == Join(ls + wanted, []) <==> !prints && wanted == []
  {
    var printed := Join(ls, []);
    JoinOneMore(ls, tail);
    assert ls + [] == ls && printed + [] == printed;
    assert |printed + Extra(prints, whole)| == |printed| + if prints then |whole| + 1 else 0;
  }

  /**
   Input that ends with a newline, or with a full buffer: unique mode is right, and -D never is,
   because the last turn takes a line of the last read for a repeated one and prints the buffer.
   */
  lemma FinishedInput(H: seq<byte> -> uint64, threshold: nat -> nat, buffer: seq<byte>, size: nat,
                      chunks: seq<seq<byte>>)
    requires 0 < |buffer| && size > 0 && chunks != [] && ReadsFit([], chunks, |buffer|)
    requires Split(Flatten(chunks), |buffer|).rest == []
    ensures var st := St(Zeros(size), 0, []);
            LosslessReads(H, false, threshold, |buffer|, st, [], chunks) ==>
              WholeRun(H, false, threshold, buffer, st, chunks).out
              == Join(Firsts(H, Split(Flatten(chunks), |buffer|).lines), [])
    ensures var st, lines := St(Zeros(size), 0, []), Split(Flatten(chunks), |buffer|).lines;
            LosslessReads(H, true, threshold, |buffer|, st, [], chunks) ==>
              WholeRun(H, true, threshold, buffer, st, chunks).out
              == Join(Repeats(H, lines), []) + (BufferAfter(buffer, [], chunks) + [NL])
  {
    var st, lines := St(Zeros(size), 0, []), Split(Flatten(chunks), |buffer|).lines;
    LastLineIs(buffer, chunks);
    LastLinesOfInput(chunks, |buffer|);
    var i := |lines| - |LinesOfLastRead(chunks, |buffer|)|;
    assert lines[i] == FirstLine(BufferAfter(buffer, [], chunks));
    if LosslessReads(H, false, threshold, |buffer|, st, [], chunks) {
      LosslessUniqueRun(H, threshold, buffer, size, chunks);
    }
    if LosslessReads(H, true, threshold, |buffer|, st, [], chunks) {
      LosslessRepeatedRun(H, threshold, buffer, size, chunks);
    }
  }

  // ----- two inputs

  /** No input at all: unique mode still prints the buffer, unless the hash of it is one of the topmost. */
  lemma EmptyInput(H: seq<byte> -> uint64, threshold: nat -> nat, buffer: seq<byte>, size: nat)
    requires 0 < |buffer| && size > 0
    ensures WholeRun(H, false, threshold, buffer, St(Zeros(size), 0, []), []).out
            == Extra(!BoundWraps(H(FirstLine(buffer))), buffer)
    ensures WholeRun(H, true, threshold, buffer, St(Zeros(size), 0, []), []).out == []
  {
    var h, t := H(FirstLine(buffer)), Zeros(size);
    ZerosWellFormed(size);
    assert t[SlotOf(t, h, 0)] == 0;
    EmitAsPrintsIff(h, false, St(t, 0, []), buffer);
    EmitAsPrintsIff(h, true, St(t, 0, []), buffer);
  }

  /** A single line cannot lose anything but by its own hash, or by a doubling. */
  lemma OneLineIsLossless(H: seq<byte> -> uint64, threshold: nat -> nat, cap: nat, size: nat, line: seq<byte>)
    requires |line| < cap && NL !in line && size > 0 && H(line) != 0 && !BoundWraps(H(line)) && threshold(size) >= 1
    ensures Split(line + [NL], cap) == Cut([line], [])
    ensures LosslessReads(H, true, threshold, cap, St(Zeros(size), 0, []), [], [line + [NL]])
  {
    var st, read := St(Zeros(size), 0, []), line + [NL];
    SplitJoin([line], [], cap);
    assert [line][1..] == [] && read == Join([line], []) == [] + read;
    ZerosWellFormed(size);
    InsertCorrect(Zeros(size), H(line));
    assert st.table[SlotOf(st.table, H(line), 0)] == 0;
    assert EmitAll(H, true, st, [line][..0]) == st;
    assert EmitAll(H, true, st, [line]) == Emit(H, true, st, line);
    assert LosslessAt(H, true, st, [line], 0);
    var chunks := [read];
    assert chunks[1..] == [];
  }

  lemma OneLineBuffer(buffer: seq<byte>, line: seq<byte>, chunks: seq<seq<byte>>)
    requires |line| < |buffer| && NL !in line && chunks == [line + [NL]]
    requires Split(line + [NL], |buffer|) == Cut([line], [])
    ensures ReadsFit([], chunks, |buffer|) && Flatten(chunks) == line + [NL]
    ensures BufferAfter(buffer, [], chunks) == line + [NL] + buffer[|line| + 1..]
    ensures FirstLine(BufferAfter(buffer, [], chunks)) == line
  {
    var read := line + [NL];
    assert chunks[1..] == [] && [] + read == read;
    assert read + buffer[|read|..] == line + ([NL] + buffer[|line| + 1..]);
    FirstOfTail(line, [NL] + buffer[|line| + 1..]);
  }

  /** With -D an input of one line is printed as if it were repeated, and the rest of the buffer with it. */
  lemma OneLineIsRepeated(H: seq<byte> -> uint64, threshold: nat -> nat, buffer: seq<byte>, size: nat, line: seq<byte>)
    requires |line| < |buffer| && NL !in line && size > 0
    requires H(line) != 0 && !BoundWraps(H(line)) && threshold(size) >= 1
    ensures Repeats(H, Split(line + [NL], |buffer|).lines) == []
    ensures ReadsFit([], [line + [NL]], |buffer|)
    ensures WholeRun(H, true, threshold, buffer, St(Zeros(size), 0, []), [line + [NL]]).out
            == line + [NL] + buffer[|line| + 1..] + [NL]
  {
    var chunks := [line + [NL]];
    OneLineIsLossless(H, threshold, |buffer|, size, line);
    OneLineBuffer(buffer, line, chunks);
    LosslessRepeatedRun(H, threshold, buffer, size, chunks);
    OneLineHasItsHash(H, line);
  }

  lemma OneLineHasItsHash(H: seq<byte> -> uint64, line: seq<byte>)
    ensures Repeats(H, [line]) == [] && HasHash(H, [line], H(line))
  {
    assert [line][..0] == [] && [line][0] == line;
  }

  /** The letter a and a newline. */
  lemma LetterIsRepeated(H: seq<byte> -> uint64, threshold: nat -> nat, buffer: seq<byte>, size: nat)
    requires 2 <= |buffer| && size > 0 && H([97]) != 0 && !BoundWraps(H([97])) && threshold(size) >= 1
    ensures Repeats(H, Split([97, 10], |buffer|).lines) == []
    ensures ReadsFit([], [[97, 10]], |buffer|)
    ensures WholeRun(H, true, threshold, buffer, St(Zeros(size), 0, []), [[97, 10]]).out
            == [97, 10] + buffer[2..] + [10]
  {
    var line: seq<byte> := [97];
    assert line + [NL] == [97, 10];
    OneLineIsRepeated(H, threshold, buffer, size, line);
  }
}
