/**
 mmuniq-hash: the same probing table as mmuniq, of a fixed size.  A probe that gives up counts
 as a line seen before.
 */
module FixedTable {
  import opened Basics
  import opened Arith
  import opened HashTable
  import Dedup

  /** What is printed for the outcome of a probe: new lines, or with -D all others. */
  predicate Prints(repeated: bool, miss: int) {
    if repeated then miss != 1 else miss == 1
  }

  function Hashes(H: seq<byte> -> uint64, lines: seq<seq<byte>>): (hs: seq<nat>)
    ensures |hs| == |lines| && forall i :: 0 <= i < |lines| ==> hs[i] == H(lines[i])
  {
    seq(|lines|, i requires 0 <= i < |lines| => H(lines[i]))
  }

  /** The lines printed, given the outcomes of their probes. */
  function Printed(repeated: bool, lines: seq<seq<byte>>, misses: seq<int>): seq<seq<byte>>
    requires |lines| == |misses|
  {
    if lines == [] then []
    else
      var n := |lines| - 1;
      Printed(repeated, lines[..n], misses[..n]) + if Prints(repeated, misses[n]) then [lines[n]] else []
  }

  class Filter {
    /** siphash24 with the two constant keys. */
    const H: seq<byte> -> uint64
    const repeated: bool
    const bm: array<uint64>
    ghost const k: nat
    var printed: seq<seq<byte>>
    var overflowCount: nat

    constructor (H: seq<byte> -> uint64, repeated: bool, size: nat, ghost k: nat)
      requires size == Pow2(k)
      ensures fresh(bm) && Shape() && bm[..] == Zeros(size) && printed == [] && overflowCount == 0
      ensures this.H == H && this.repeated == repeated
    {
      this.H := H;
      this.repeated := repeated;
      this.k := k;
      bm := new uint64[size](_ => 0);
      printed := [];
      overflowCount := 0;
      new;
      assert bm[..] == Zeros(size);
    }

    ghost predicate Shape() {
      bm.Length == Pow2(k)
    }

    /** process_line. */
    method ProcessLine(line: seq<byte>)
      requires Shape()
      modifies this`printed, this`overflowCount, bm
      ensures var r := Insert(old(bm[..]), H(line));
              && bm[..] == r.table
              && printed == old(printed) + (if Prints(repeated, r.miss) then [line] else [])
              && overflowCount == old(overflowCount) + (if r.miss == -1 then 1 else 0)
    {
      var miss := HashInsert(H(line), bm, k);
      if miss == -1 {
        overflowCount := overflowCount + 1;
        miss := 0;
      }
      if (!repeated && miss == 1) || (repeated && miss == 0) {
        printed := printed + [line];
      }
    }

    /** From the table t, the given lines have been handled. */
    ghost predicate Handled(t: seq<nat>, lines: seq<seq<byte>>)
      reads this`printed, bm
    {
      && Shape() && |t| > 0
      && bm[..] == InsertAll(t, Hashes(H, lines)).table
      && printed == Printed(repeated, lines, InsertAll(t, Hashes(H, lines)).misses)
    }

    method ProcessNext(line: seq<byte>, ghost t: seq<nat>, ghost lines: seq<seq<byte>>)
      requires Handled(t, lines)
      modifies this`printed, this`overflowCount, bm
      ensures Handled(t, lines + [line])
    {
      OneLineMore(H, repeated, t, lines, line);
      ProcessLine(line);
    }

    /** process_line on the lines from number n on. */
    method ProcessLines(lines: seq<seq<byte>>, n: nat, ghost t: seq<nat>)
      requires n <= |lines| && Handled(t, lines[..n])
      modifies this`printed, this`overflowCount, bm
      ensures Handled(t, lines)
    {
      for i := n to |lines|
        invariant Handled(t, lines[..i])
      {
        assert lines[..i + 1] == lines[..i] + [lines[i]];
        ProcessNext(lines[i], t, lines[..i]);
      }
      assert lines[..|lines|] == lines;
    }
  }

  lemma OneLineMore(H: seq<byte> -> uint64, repeated: bool, t: seq<nat>, lines: seq<seq<byte>>, line: seq<byte>)
    requires |t| > 0
    ensures var before, after := InsertAll(t, Hashes(H, lines)), InsertAll(t, Hashes(H, lines + [line]));
            var last := Insert(before.table, H(line));
            && after.table == last.table
            && Printed(repeated, lines + [line], after.misses)
               == Printed(repeated, lines, before.misses) + (if Prints(repeated, last.miss) then [line] else [])
  {
    var hs := Hashes(H, lines + [line]);
    assert (lines + [line])[..|lines|] == lines;
    assert hs[..|lines|] == Hashes(H, lines);
    assert InsertAll(t, hs).misses[..|lines|] == InsertAll(t, Hashes(H, lines)).misses;
  }

  /** Which lines are printed, over any run from a well-formed table. */
  lemma PrintsIff(t: seq<nat>, hs: seq<nat>, i: nat, repeated: bool)
    requires WellFormed(t) && i < |hs|
    ensures var seen := hs[i] in Values(t) || StoredByRun(t, hs, i, hs[i]);
            var gaveUp := GivesUp(InsertAll(t, hs[..i]).table, hs[i]);
            Prints(repeated, InsertAll(t, hs).misses[i]) <==> repeated == (seen || gaveUp)
  {
    RunReportsSeen(t, hs, i);
    OutcomeOf(t, hs, i);
    RunStores(t, hs[..i]);
    InsertCorrect(InsertAll(t, hs[..i]).table, hs[i]);
  }

  lemma OutcomeOf(t: seq<nat>, hs: seq<nat>, i: nat)
    requires |t| > 0 && i < |hs|
    ensures InsertAll(t, hs).misses[i] == Insert(InsertAll(t, hs[..i]).table, hs[i]).miss
  {
    RunPrefix(t, hs, i + 1);
    var upto := hs[..i + 1];
    assert upto[..i] == hs[..i];
    assert InsertAll(t, upto).misses[i] == Insert(InsertAll(t, hs[..i]).table, hs[i]).miss;
  }

  /** Unique mode never prints two lines with one hash, other than the hash that marks empty slots. */
  lemma NoHashPrintedTwice(t: seq<nat>, hs: seq<nat>, i: nat, j: nat)
    requires WellFormed(t) && i < j < |hs| && hs[i] == hs[j] != 0
    ensures !(Prints(false, InsertAll(t, hs).misses[i]) && Prints(false, InsertAll(t, hs).misses[j]))
  {
    if InsertAll(t, hs).misses[i] == 1 {
      assert StoredByRun(t, hs, j, hs[j]);
      RunReportsSeen(t, hs, j);
    }
  }

  // ----- runs in which no probe gives up

  /** No line hashes to the empty marker, and no probe gives up. */
  ghost predicate NoneGivesUp(t: seq<nat>, hs: seq<nat>)
    requires |t| > 0
  {
    forall i :: 0 <= i < |hs| ==> Finds(t, hs, i)
  }

  ghost predicate Finds(t: seq<nat>, hs: seq<nat>, i: nat)
    requires |t| > 0 && i < |hs|
  {
    hs[i] != 0 && !GivesUp(InsertAll(t, hs[..i]).table, hs[i])
  }

  lemma FindsInPrefix(t: seq<nat>, hs: seq<nat>, n: nat)
    requires |t| > 0 && n <= |hs| && NoneGivesUp(t, hs)
    ensures NoneGivesUp(t, hs[..n])
  {
    forall i | 0 <= i < n ensures Finds(t, hs[..n], i) {
      assert Finds(t, hs, i) && hs[..n][..i] == hs[..i];
    }
  }

  /** The table then stores exactly the hashes of the run. */
  lemma {:induction false} AllAreStored(t: seq<nat>, hs: seq<nat>, v: nat)
    requires WellFormed(t) && Values(t) == {} && NoneGivesUp(t, hs) && v != 0
    ensures WellFormed(InsertAll(t, hs).table)
    ensures Stored(InsertAll(t, hs).table, v) <==> v in hs
    decreases |hs|
  {
    if hs == [] {
      assert Stored(t, v) ==> v in Values(t);
    } else {
      var n := |hs| - 1;
      FindsInPrefix(t, hs, n);
      AllAreStored(t, hs[..n], v);
      assert Finds(t, hs, n);
      InsertCorrect(InsertAll(t, hs[..n]).table, hs[n]);
      InsertStores(InsertAll(t, hs[..n]).table, hs[n], v);
      assert hs == hs[..n] + [hs[n]];
    }
  }

  lemma HashesPrefix(H: seq<byte> -> uint64, lines: seq<seq<byte>>, n: nat)
    requires n <= |lines|
    ensures Hashes(H, lines)[..n] == Hashes(H, lines[..n])
  {
  }

  /** The last line is printed as its mode wants it. */
  lemma LastOutcome(H: seq<byte> -> uint64, t: seq<nat>, lines: seq<seq<byte>>)
    requires WellFormed(t) && Values(t) == {} && lines != [] && NoneGivesUp(t, Hashes(H, lines))
    ensures var n := |lines| - 1;
            InsertAll(t, Hashes(H, lines)).misses[n] == if Dedup.HasHash(H, lines[..n], H(lines[n])) then 0 else 1
  {
    var n, hs := |lines| - 1, Hashes(H, lines);
    HashesPrefix(H, lines, n);
    FindsInPrefix(t, hs, n);
    assert Finds(t, hs, n);
    AllAreStored(t, hs[..n], hs[n]);
    OutcomeOf(t, hs, n);
    InsertCorrect(InsertAll(t, hs[..n]).table, hs[n]);
    forall i | 0 <= i < n ensures hs[..n][i] == H(lines[..n][i]) {}
  }

  /** Unique mode then prints the first line of every hash, and -D all the others. */
  lemma {:induction false} PrintsFirstsOrRepeats(H: seq<byte> -> uint64, t: seq<nat>, lines: seq<seq<byte>>)
    requires WellFormed(t) && Values(t) == {} && NoneGivesUp(t, Hashes(H, lines))
    ensures Printed(false, lines, InsertAll(t, Hashes(H, lines)).misses) == Dedup.Firsts(H, lines)
    ensures Printed(true, lines, InsertAll(t, Hashes(H, lines)).misses) == Dedup.Repeats(H, lines)
    decreases |lines|
  {
    if lines != [] {
      var n, hs := |lines| - 1, Hashes(H, lines);
      HashesPrefix(H, lines, n);
      FindsInPrefix(t, hs, n);
      PrintsFirstsOrRepeats(H, t, lines[..n]);
      LastOutcome(H, t, lines);
      RunPrefix(t, hs, n);
      assert forall j :: 0 <= j < n ==> lines[..n][j] == lines[j];
    }
  }
}
