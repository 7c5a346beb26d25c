/**
 Every run of mmuniq up to the end of the input, losses included.  A run is a sequence of lines
 taken and doublings; what it prints is decided by which hashes a doubling drops and which probes
 give up.
 */
module DedupRuns {
  import opened Basics
  import opened Lines
  import opened HashTable
  import opened Dedup

  datatype Op = Take(line: seq<byte>) | Double

  function Apply(H: seq<byte> -> uint64, t: seq<nat>, op: Op): (r: seq<nat>)
    requires |t| > 0
    ensures |r| > 0
  {
    match op
    case Take(line) => Insert(t, H(line)).table
    case Double => Resized(t)
  }

  function After(H: seq<byte> -> uint64, t: seq<nat>, ops: seq<Op>): (r: seq<nat>)
    requires |t| > 0
    ensures |r| > 0
    decreases |ops|
  {
    if ops == [] then t else Apply(H, After(H, t, ops[..|ops| - 1]), ops[|ops| - 1])
  }

  /** The line of one step, if it is printed. */
  function Shown(H: seq<byte> -> uint64, repeated: bool, t: seq<nat>, op: Op): seq<seq<byte>>
    requires |t| > 0
  {
    if op.Take? && Prints(repeated, Insert(t, H(op.line)).miss) then [op.line] else []
  }

  function Printed(H: seq<byte> -> uint64, repeated: bool, t: seq<nat>, ops: seq<Op>): seq<seq<byte>>
    requires |t| > 0
    decreases |ops|
  {
    if ops == [] then []
    else
      var n := |ops| - 1;
      Printed(H, repeated, t, ops[..n]) + Shown(H, repeated, After(H, t, ops[..n]), ops[n])
  }

  function Taken(ops: seq<Op>): seq<seq<byte>>
    decreases |ops|
  {
    if ops == [] then []
    else
      var n := |ops| - 1;
      Taken(ops[..n]) + if ops[n].Take? then [ops[n].line] else []
  }

  // ----- one step

  lemma ApplyKeepsWellFormed(H: seq<byte> -> uint64, t: seq<nat>, op: Op)
    requires WellFormed(t)
    ensures WellFormed(Apply(H, t, op))
  {
    if op.Take? {
      InsertCorrect(t, H(op.line));
    } else {
      ReinsertCorrect(t, |t| - 1);
    }
  }

  lemma {:induction false} AfterIsWellFormed(H: seq<byte> -> uint64, t: seq<nat>, ops: seq<Op>)
    requires WellFormed(t)
    ensures WellFormed(After(H, t, ops))
    decreases |ops|
  {
    if ops != [] {
      var n := |ops| - 1;
      AfterIsWellFormed(H, t, ops[..n]);
      ApplyKeepsWellFormed(H, After(H, t, ops[..n]), ops[n]);
    }
  }

  /** The step takes a line with hash v, which is neither known nor given up. */
  ghost predicate Stores(H: seq<byte> -> uint64, t: seq<nat>, op: Op, v: nat)
    requires |t| > 0
  {
    op.Take? && H(op.line) == v && !Stored(t, v) && !GivesUp(t, v)
  }

  /** The step is a doubling that loses v. */
  ghost predicate Loses(t: seq<nat>, op: Op, v: nat)
    requires |t| > 0
  {
    op.Double? && Drops(t, v)
  }

  /** One step changes whether v is stored exactly when it stores or loses it. */
  lemma StepStored(H: seq<byte> -> uint64, t: seq<nat>, op: Op, v: nat)
    requires WellFormed(t) && v != 0
    ensures Stored(Apply(H, t, op), v) <==> Stores(H, t, op, v) || (Stored(t, v) && !Loses(t, op, v))
  {
    match op
    case Take(line) =>
      InsertCorrect(t, H(line));
      assert Stored(t, v) <==> v in Values(t);
      assert Stored(Apply(H, t, op), v) <==> v in Values(Apply(H, t, op));
    case Double => ResizedKeeps(t, v);
  }

  // ----- what a run has stored

  /** Step i stored v and no doubling at a later step has lost it. */
  ghost predicate KeptSince(H: seq<byte> -> uint64, t: seq<nat>, ops: seq<Op>, v: nat, i: nat)
    requires |t| > 0 && i < |ops|
  {
    && Stores(H, After(H, t, ops[..i]), ops[i], v)
    && forall m :: i < m < |ops| ==> !LosesAt(H, t, ops, m, v)
  }

  ghost predicate LosesAt(H: seq<byte> -> uint64, t: seq<nat>, ops: seq<Op>, m: nat, v: nat)
    requires |t| > 0 && m < |ops|
  {
    Loses(After(H, t, ops[..m]), ops[m], v)
  }

  lemma KeptSinceStep(H: seq<byte> -> uint64, t: seq<nat>, ops: seq<Op>, v: nat, i: nat)
    requires |t| > 0 && i < |ops| - 1
    ensures var n := |ops| - 1;
            KeptSince(H, t, ops, v, i) <==> KeptSince(H, t, ops[..n], v, i) && !LosesAt(H, t, ops, n, v)
  {
    var n := |ops| - 1;
    forall m | 0 <= m < n ensures ops[..n][..m] == ops[..m] {}
    assert ops[..n][i] == ops[i];
    assert forall m :: i < m < n ==> (LosesAt(H, t, ops[..n], m, v) <==> LosesAt(H, t, ops, m, v));
  }

  /** Some step stored v, and no doubling since then lost it. */
  ghost predicate Keeps(H: seq<byte> -> uint64, t: seq<nat>, ops: seq<Op>, v: nat)
    requires |t| > 0
  {
    exists i :: 0 <= i < |ops| && KeptSince(H, t, ops, v, i)
  }

  lemma KeepsStep(H: seq<byte> -> uint64, t: seq<nat>, ops: seq<Op>, before: seq<Op>, n: nat, v: nat)
    requires |t| > 0 && |ops| == n + 1 && before == ops[..n]
    ensures Keeps(H, t, ops, v) <==>
            Stores(H, After(H, t, before), ops[n], v) || (Keeps(H, t, before, v) && !LosesAt(H, t, ops, n, v))
  {
    assert KeptSince(H, t, ops, v, n) <==> Stores(H, After(H, t, before), ops[n], v);
    if i :| 0 <= i < n && KeptSince(H, t, ops, v, i) {
      KeptSinceStep(H, t, ops, v, i);
      assert KeptSince(H, t, before, v, i);
    }
    if i :| 0 <= i < n && KeptSince(H, t, before, v, i) {
      KeptSinceStep(H, t, ops, v, i);
    }
  }

  /** A hash is stored exactly when some step stored it and no doubling since then lost it. */
  lemma {:induction false} StoredIff(H: seq<byte> -> uint64, t: seq<nat>, ops: seq<Op>, v: nat)
    requires WellFormed(t) && Values(t) == {} && v != 0
    ensures Stored(After(H, t, ops), v) <==> Keeps(H, t, ops, v)
    decreases |ops|
  {
    if ops == [] {
      assert Stored(t, v) ==> v in Values(t);
    } else {
      var n := |ops| - 1;
      StoredIff(H, t, ops[..n], v);
      AfterIsWellFormed(H, t, ops[..n]);
      StepStored(H, After(H, t, ops[..n]), ops[n], v);
      KeepsStep(H, t, ops, ops[..n], n, v);
    }
  }

  // ----- which lines are printed

  ghost predicate PrintsAt(H: seq<byte> -> uint64, repeated: bool, t: seq<nat>, ops: seq<Op>, j: nat)
    requires |t| > 0 && j < |ops|
  {
    ops[j].Take? && Prints(repeated, Insert(After(H, t, ops[..j]), H(ops[j].line)).miss)
  }

  /**
   Exactly when the line of step j is printed, in any run: with -D when its hash was stored and
   not lost since, in unique mode when it was not and the probe does not give up.
   */
  lemma PrintsIff(H: seq<byte> -> uint64, repeated: bool, t: seq<nat>, ops: seq<Op>, j: nat)
    requires WellFormed(t) && Values(t) == {} && j < |ops| && ops[j].Take?
    ensures var h := H(ops[j].line);
            var known := h != 0 && Keeps(H, t, ops[..j], h);
            PrintsAt(H, repeated, t, ops, j) <==>
            if repeated then known else !known && !GivesUp(After(H, t, ops[..j]), h)
  {
    var h := H(ops[j].line);
    AfterIsWellFormed(H, t, ops[..j]);
    InsertCorrect(After(H, t, ops[..j]), h);
    if h != 0 {
      StoredIff(H, t, ops[..j], h);
    }
  }

  ghost predicate NewAt(H: seq<byte> -> uint64, ops: seq<Op>, j: nat)
    requires j < |ops| && ops[j].Take?
  {
    forall i :: 0 <= i < j && ops[i].Take? ==> H(ops[i].line) != H(ops[j].line)
  }

  /** The first line of a hash is printed in unique mode unless its probe gives up, and never with -D. */
  lemma FirstIsPrintedIff(H: seq<byte> -> uint64, t: seq<nat>, ops: seq<Op>, j: nat)
    requires WellFormed(t) && Values(t) == {} && j < |ops| && ops[j].Take? && NewAt(H, ops, j)
    ensures PrintsAt(H, false, t, ops, j) <==> !GivesUp(After(H, t, ops[..j]), H(ops[j].line))
    ensures !PrintsAt(H, true, t, ops, j)
  {
    PrintsIff(H, false, t, ops, j);
    PrintsIff(H, true, t, ops, j);
    var h := H(ops[j].line);
    forall i | 0 <= i < j ensures !KeptSince(H, t, ops[..j], h, i) {
      assert ops[..j][i] == ops[i];
    }
  }

  /** Unique mode prints a hash again only if it is the empty marker or a doubling in between lost it. */
  lemma PrintedAgain(H: seq<byte> -> uint64, t: seq<nat>, ops: seq<Op>, i: nat, j: nat)
    requires WellFormed(t) && Values(t) == {} && i < j < |ops|
    requires PrintsAt(H, false, t, ops, i) && PrintsAt(H, false, t, ops, j)
    requires H(ops[i].line) == H(ops[j].line)
    ensures H(ops[j].line) == 0 || exists m :: i < m < j && LosesAt(H, t, ops, m, H(ops[j].line))
  {
    var h := H(ops[j].line);
    PrintsIff(H, false, t, ops, j);
    AfterIsWellFormed(H, t, ops[..i]);
    InsertCorrect(After(H, t, ops[..i]), h);
    if h != 0 {
      forall m | 0 <= m < j ensures ops[..j][m] == ops[m] && ops[..j][..m] == ops[..m] {}
      assert Stores(H, After(H, t, ops[..j][..i]), ops[..j][i], h);
      assert !KeptSince(H, t, ops[..j], h, i);
      var m :| i < m < j && LosesAt(H, t, ops[..j], m, h);
      assert LosesAt(H, t, ops, m, h);
    }
  }

  // ----- -D prints repeated lines only

  /** a is b with some elements left out. */
  ghost predicate Subsequence<T(!new)>(a: seq<T>, b: seq<T>)
    decreases |b|
  {
    || a == []
    || (b != [] && Subsequence(a, b[..|b| - 1]))
    || (b != [] && a[|a| - 1] == b[|b| - 1] && Subsequence(a[..|a| - 1], b[..|b| - 1]))
  }

  lemma SubsequenceGrows<T(!new)>(a: seq<T>, b: seq<T>, x: T)
    requires Subsequence(a, b)
    ensures Subsequence(a, b + [x]) && Subsequence(a + [x], b + [x])
  {
    assert (a + [x])[..|a|] == a && (b + [x])[..|b|] == b;
  }

  /** One more element, which a may leave out and b has if a has it. */
  lemma SubsequenceNext<T(!new)>(a: seq<T>, b: seq<T>, x: T, moreA: seq<T>, moreB: seq<T>)
    requires Subsequence(a, b) && moreA in {[], [x]} && moreB in {[], [x]} && (moreA == [x] ==> moreB == [x])
    ensures Subsequence(a + moreA, b + moreB)
  {
    SubsequenceGrows(a, b, x);
    assert a + [] == a && b + [] == b;
  }

  /** Whatever is stored is the hash of a line taken before. */
  lemma {:induction false} StoredWasTaken(H: seq<byte> -> uint64, t: seq<nat>, ops: seq<Op>, v: nat)
    requires WellFormed(t) && Values(t) == {} && Stored(After(H, t, ops), v)
    ensures exists i :: 0 <= i < |Taken(ops)| && H(Taken(ops)[i]) == v
    decreases |ops|
  {
    assert Stored(t, v) ==> v in Values(t);
    if ops != [] {
      var n := |ops| - 1;
      AfterIsWellFormed(H, t, ops[..n]);
      StepStored(H, After(H, t, ops[..n]), ops[n], v);
      if Stored(After(H, t, ops[..n]), v) {
        StoredWasTaken(H, t, ops[..n], v);
        var i :| 0 <= i < |Taken(ops[..n])| && H(Taken(ops[..n])[i]) == v;
        assert Taken(ops)[i] == Taken(ops[..n])[i];
      } else {
        assert Taken(ops)[|Taken(ops[..n])|] == ops[n].line;
      }
    }
  }

  lemma {:induction false} PrintsSomeRepeats(H: seq<byte> -> uint64, t: seq<nat>, ops: seq<Op>)
    requires WellFormed(t) && Values(t) == {}
    ensures Subsequence(Printed(H, true, t, ops), Repeats(H, Taken(ops)))
    decreases |ops|
  {
    if ops != [] {
      var n := |ops| - 1;
      PrintsSomeRepeats(H, t, ops[..n]);
      if ops[n].Take? {
        RepeatsOneMore(H, Taken(ops[..n]), ops[n].line);
        SubsequenceGrows(Printed(H, true, t, ops[..n]), Repeats(H, Taken(ops[..n])), ops[n].line);
        ShownIsRepeat(H, t, ops[..n], ops[n].line);
      }
      var p, r := Printed(H, true, t, ops[..n]), Repeats(H, Taken(ops[..n]));
      assert p + [] == p && r + [] == r && Taken(ops[..n]) + [] == Taken(ops[..n]);
    }
  }

  lemma RepeatsOneMore(H: seq<byte> -> uint64, lines: seq<seq<byte>>, line: seq<byte>)
    ensures Repeats(H, lines + [line]) == Repeats(H, lines) + if HasHash(H, lines, H(line)) then [line] else []
    ensures Firsts(H, lines + [line]) == Firsts(H, lines) + if HasHash(H, lines, H(line)) then [] else [line]
  {
    var all := lines + [line];
    assert all[..|all| - 1] == lines;
    assert forall j :: 0 <= j < |lines| ==> all[j] == lines[j];
  }

  lemma ShownIsRepeat(H: seq<byte> -> uint64, t: seq<nat>, ops: seq<Op>, line: seq<byte>)
    requires WellFormed(t) && Values(t) == {}
    ensures Shown(H, true, After(H, t, ops), Take(line)) == [line] ==> HasHash(H, Taken(ops), H(line))
  {
    AfterIsWellFormed(H, t, ops);
    InsertCorrect(After(H, t, ops), H(line));
    if Stored(After(H, t, ops), H(line)) {
      StoredWasTaken(H, t, ops, H(line));
    }
  }

  /** Unique mode prints every first line, and perhaps more, when no probe of one gives up. */
  lemma {:induction false} PrintsAllFirsts(H: seq<byte> -> uint64, t: seq<nat>, ops: seq<Op>)
    requires WellFormed(t) && Values(t) == {}
    requires forall j :: 0 <= j < |ops| ==> FirstFinds(H, t, ops, j)
    ensures Subsequence(Firsts(H, Taken(ops)), Printed(H, false, t, ops))
    decreases |ops|
  {
    if ops != [] {
      var n := |ops| - 1;
      var before := ops[..n];
      forall j | 0 <= j < n ensures FirstFinds(H, t, before, j) {
        assert FirstFinds(H, t, ops, j) && before[..j] == ops[..j];
      }
      PrintsAllFirsts(H, t, before);
      if ops[n].Take? {
        assert FirstFinds(H, t, ops, n);
        PrintsNextFirst(H, t, before, ops[n].line);
      } else {
        assert Printed(H, false, t, before) + [] == Printed(H, false, t, before);
        assert Taken(before) + [] == Taken(before);
      }
    }
  }

  lemma PrintsNextFirst(H: seq<byte> -> uint64, t: seq<nat>, ops: seq<Op>, line: seq<byte>)
    requires WellFormed(t) && Values(t) == {}
    requires HasHash(H, Taken(ops), H(line)) || !GivesUp(After(H, t, ops), H(line))
    requires Subsequence(Firsts(H, Taken(ops)), Printed(H, false, t, ops))
    ensures Subsequence(Firsts(H, Taken(ops) + [line]),
                        Printed(H, false, t, ops) + Shown(H, false, After(H, t, ops), Take(line)))
  {
    RepeatsOneMore(H, Taken(ops), line);
    if !HasHash(H, Taken(ops), H(line)) { ShownIfFirst(H, t, ops, line); }
    SubsequenceNext(Firsts(H, Taken(ops)), Printed(H, false, t, ops), line,
                    if HasHash(H, Taken(ops), H(line)) then [] else [line],
                    Shown(H, false, After(H, t, ops), Take(line)));
  }

  /** If step j takes a line that is the first of its hash, the probe does not give up. */
  ghost predicate FirstFinds(H: seq<byte> -> uint64, t: seq<nat>, ops: seq<Op>, j: nat)
    requires |t| > 0 && j < |ops|
  {
    ops[j].Take? && !HasHash(H, Taken(ops[..j]), H(ops[j].line)) ==> !GivesUp(After(H, t, ops[..j]), H(ops[j].line))
  }

  lemma ShownIfFirst(H: seq<byte> -> uint64, t: seq<nat>, ops: seq<Op>, line: seq<byte>)
    requires WellFormed(t) && Values(t) == {} && !HasHash(H, Taken(ops), H(line)) && !GivesUp(After(H, t, ops), H(line))
    ensures Shown(H, false, After(H, t, ops), Take(line)) == [line]
  {
    AfterIsWellFormed(H, t, ops);
    InsertCorrect(After(H, t, ops), H(line));
    if Stored(After(H, t, ops), H(line)) {
      StoredWasTaken(H, t, ops, H(line));
    }
  }

  // ----- the run of the program is such a run

  function Takes(lines: seq<seq<byte>>): (ops: seq<Op>)
    ensures |ops| == |lines| && forall i :: 0 <= i < |ops| ==> ops[i] == Take(lines[i])
  {
    seq(|lines|, i requires 0 <= i < |lines| => Take(lines[i]))
  }

  /** The steps of a run: the lines of each read, and the doubling behind them if there is one. */
  function Steps(H: seq<byte> -> uint64, repeated: bool, threshold: nat -> nat, cap: nat,
                 st: St, pending: seq<byte>, chunks: seq<seq<byte>>): seq<Op>
    requires cap > 0 && |st.table| > 0
    decreases |chunks|
  {
    if chunks == [] then []
    else
      var cut := Split(pending + chunks[0], cap);
      ReadSteps(H, repeated, threshold, st, cut.lines)
      + Steps(H, repeated, threshold, cap, AfterRead(H, repeated, threshold, st, cut.lines), cut.rest, chunks[1..])
  }

  function Doubling(threshold: nat -> nat, st: St): seq<Op> {
    if st.items > threshold(|st.table|) then [Double] else []
  }

  /** The steps ops lead from one state to another, printing as they go. */
  ghost predicate Leads(H: seq<byte> -> uint64, repeated: bool, st: St, ops: seq<Op>, st': St)
    requires |st.table| > 0
  {
    && st'.table == After(H, st.table, ops)
    && st'.out == st.out + Join(Printed(H, repeated, st.table, ops), [])
  }

  lemma {:induction false} JoinAppend(a: seq<seq<byte>>, b: seq<seq<byte>>)
    ensures Join(a + b, []) == Join(a, []) + Join(b, [])
    decreases |b|
  {
    if b == [] {
      assert a + b == a;
    } else {
      var n := |b| - 1;
      JoinAppend(a, b[..n]);
      JoinOneMore(a + b[..n], b[n]);
      JoinOneMore(b[..n], b[n]);
      assert a + b == (a + b[..n]) + [b[n]] && b == b[..n] + [b[n]];
    }
  }

  lemma {:induction false} AfterAppend(H: seq<byte> -> uint64, t: seq<nat>, a: seq<Op>, b: seq<Op>)
    requires |t| > 0
    ensures After(H, t, a + b) == After(H, After(H, t, a), b)
    decreases |b|
  {
    if b == [] {
      assert a + b == a;
    } else {
      AfterAppend(H, t, a, b[..|b| - 1]);
      assert (a + b)[..|a + b| - 1] == a + b[..|b| - 1] && (a + b)[|a + b| - 1] == b[|b| - 1];
    }
  }

  lemma {:induction false} PrintedAppend(H: seq<byte> -> uint64, repeated: bool, t: seq<nat>, a: seq<Op>, b: seq<Op>)
    requires |t| > 0
    ensures Printed(H, repeated, t, a + b) == Printed(H, repeated, t, a) + Printed(H, repeated, After(H, t, a), b)
    decreases |b|
  {
    if b == [] {
      assert a + b == a;
    } else {
      var n := |b| - 1;
      PrintedAppend(H, repeated, t, a, b[..n]);
      AfterAppend(H, t, a, b[..n]);
      assert (a + b)[..|a + b| - 1] == a + b[..n];
      Associative(Printed(H, repeated, t, a), Printed(H, repeated, After(H, t, a), b[..n]),
                  Shown(H, repeated, After(H, t, a + b[..n]), b[n]));
    }
  }

  lemma {:induction false} TakenAppend(a: seq<Op>, b: seq<Op>)
    ensures Taken(a + b) == Taken(a) + Taken(b)
    decreases |b|
  {
    if b == [] {
      assert a + b == a;
    } else {
      var n := |b| - 1;
      TakenAppend(a, b[..n]);
      assert (a + b)[..|a + b| - 1] == a + b[..n] && (a + b)[|a + b| - 1] == b[n];
    }
  }

  lemma PrintOn(out: seq<byte>, a: seq<seq<byte>>, out1: seq<byte>, b: seq<seq<byte>>, out2: seq<byte>)
    requires out1 == out + Join(a, []) && out2 == out1 + Join(b, [])
    ensures out2 == out + Join(a + b, [])
  {
    JoinAppend(a, b);
  }

  lemma LeadsOn(H: seq<byte> -> uint64, repeated: bool, st: St, a: seq<Op>, st1: St, b: seq<Op>, st2: St)
    requires |st.table| > 0 && |st1.table| > 0 && Leads(H, repeated, st, a, st1) && Leads(H, repeated, st1, b, st2)
    ensures Leads(H, repeated, st, a + b, st2)
  {
    AfterAppend(H, st.table, a, b);
    PrintedAppend(H, repeated, st.table, a, b);
    PrintOn(st.out, Printed(H, repeated, st.table, a), st1.out, Printed(H, repeated, st1.table, b), st2.out);
  }

  lemma LeadsEmit(H: seq<byte> -> uint64, repeated: bool, st: St, line: seq<byte>)
    requires |st.table| > 0
    ensures Leads(H, repeated, st, [Take(line)], Emit(H, repeated, st, line))
  {
    var op := Take(line);
    assert [op][..0] == [];
    assert Printed(H, repeated, st.table, [op]) == Shown(H, repeated, st.table, op);
    JoinOneMore([], line);
    assert [] + [line] == [line] && Join([], []) == [];
  }

  lemma {:induction false} LeadsTakes(H: seq<byte> -> uint64, repeated: bool, st: St, lines: seq<seq<byte>>)
    requires |st.table| > 0
    ensures Leads(H, repeated, st, Takes(lines), EmitAll(H, repeated, st, lines))
    decreases |lines|
  {
    if lines != [] {
      var n := |lines| - 1;
      LeadsTakes(H, repeated, st, lines[..n]);
      TakesOneMore(lines);
      LeadsOneMore(H, repeated, st, Takes(lines[..n]), EmitAll(H, repeated, st, lines[..n]), lines[n]);
    }
  }

  lemma LeadsOneMore(H: seq<byte> -> uint64, repeated: bool, st: St, ops: seq<Op>, st1: St, line: seq<byte>)
    requires |st.table| > 0 && |st1.table| > 0 && Leads(H, repeated, st, ops, st1)
    ensures Leads(H, repeated, st, ops + [Take(line)], Emit(H, repeated, st1, line))
  {
    LeadsEmit(H, repeated, st1, line);
    LeadsOn(H, repeated, st, ops, st1, [Take(line)], Emit(H, repeated, st1, line));
  }

  lemma TakesOneMore(lines: seq<seq<byte>>)
    requires lines != []
    ensures var n := |lines| - 1; Takes(lines) == Takes(lines[..n]) + [Take(lines[n])]
  {
  }

  lemma {:induction false} TakenTakes(lines: seq<seq<byte>>)
    ensures Taken(Takes(lines)) == lines
    decreases |lines|
  {
    if lines != [] {
      var n := |lines| - 1;
      TakenTakes(lines[..n]);
      assert Takes(lines)[..n] == Takes(lines[..n]);
    }
  }

  lemma LeadsSettle(H: seq<byte> -> uint64, repeated: bool, threshold: nat -> nat, st: St)
    requires |st.table| > 0
    ensures Leads(H, repeated, st, Doubling(threshold, st), Settle(threshold, st))
    ensures Taken(Doubling(threshold, st)) == []
  {
    assert [Double][..0] == [];
    assert Printed(H, repeated, st.table, [Double]) == [];
  }

  /** One read: the lines, and the doubling behind them if there is one. */
  function ReadSteps(H: seq<byte> -> uint64, repeated: bool, threshold: nat -> nat, st: St,
                     lines: seq<seq<byte>>): seq<Op>
    requires |st.table| > 0
  {
    Takes(lines) + Doubling(threshold, EmitAll(H, repeated, st, lines))
  }

  function AfterRead(H: seq<byte> -> uint64, repeated: bool, threshold: nat -> nat, st: St,
                     lines: seq<seq<byte>>): (r: St)
    requires |st.table| > 0
    ensures |r.table| > 0
  {
    Settle(threshold, EmitAll(H, repeated, st, lines))
  }

  lemma {:induction false} StepsTake(H: seq<byte> -> uint64, repeated: bool, threshold: nat -> nat, cap: nat,
                                     st: St, pending: seq<byte>, chunks: seq<seq<byte>>)
    requires cap > 0 && |st.table| > 0 && |pending| < cap && NL !in pending
    ensures Taken(Steps(H, repeated, threshold, cap, st, pending, chunks))
            == Split(pending + Flatten(chunks), cap).lines
    decreases |chunks|
  {
    if chunks == [] {
      assert pending + Flatten(chunks) == pending;
      NothingToSplit(pending, cap);
    } else {
      var first := pending + chunks[0];
      var cut := Split(first, cap);
      LinesAreClean(first, cap);
      var st2 := AfterRead(H, repeated, threshold, st, cut.lines);
      StepsTake(H, repeated, threshold, cap, st2, cut.rest, chunks[1..]);
      ReadLeads(H, repeated, threshold, st, cut.lines);
      TakenAppend(ReadSteps(H, repeated, threshold, st, cut.lines),
                  Steps(H, repeated, threshold, cap, st2, cut.rest, chunks[1..]));
      SplitAppend(first, Flatten(chunks[1..]), cap);
      assert pending + Flatten(chunks) == first + Flatten(chunks[1..]);
    }
  }

  /**
   However the input is cut into reads, a run takes the lines of the whole input in order, and
   its table and its output up to the end of the input are those of its steps.
   */
  lemma {:induction false} RunLeads(H: seq<byte> -> uint64, repeated: bool, threshold: nat -> nat, cap: nat,
                                    st: St, pending: seq<byte>, chunks: seq<seq<byte>>)
    requires cap > 0 && |st.table| > 0
    ensures Leads(H, repeated, st, Steps(H, repeated, threshold, cap, st, pending, chunks),
                  AfterReads(H, repeated, threshold, cap, st, pending, chunks))
    decreases |chunks|
  {
    if chunks != [] {
      var cut := Split(pending + chunks[0], cap);
      var st2 := AfterRead(H, repeated, threshold, st, cut.lines);
      RunLeads(H, repeated, threshold, cap, st2, cut.rest, chunks[1..]);
      ReadLeads(H, repeated, threshold, st, cut.lines);
      LeadsOn(H, repeated, st, ReadSteps(H, repeated, threshold, st, cut.lines), st2,
              Steps(H, repeated, threshold, cap, st2, cut.rest, chunks[1..]),
              AfterReads(H, repeated, threshold, cap, st2, cut.rest, chunks[1..]));
    }
  }

  /** One read: its lines, then perhaps a doubling. */
  lemma ReadLeads(H: seq<byte> -> uint64, repeated: bool, threshold: nat -> nat, st: St, lines: seq<seq<byte>>)
    requires |st.table| > 0
    ensures var ops := ReadSteps(H, repeated, threshold, st, lines);
            Leads(H, repeated, st, ops, AfterRead(H, repeated, threshold, st, lines)) && Taken(ops) == lines
  {
    var st1 := EmitAll(H, repeated, st, lines);
    LeadsTakes(H, repeated, st, lines);
    TakenTakes(lines);
    LeadsSettle(H, repeated, threshold, st1);
    LeadsOn(H, repeated, st, Takes(lines), st1, Doubling(threshold, st1), Settle(threshold, st1));
    TakenAppend(Takes(lines), Doubling(threshold, st1));
  }

  lemma PrintedByRun(H: seq<byte> -> uint64, repeated: bool, threshold: nat -> nat, cap: nat, st: St,
                     chunks: seq<seq<byte>>)
    returns (printed: seq<seq<byte>>)
    requires cap > 0 && |st.table| > 0 && st.out == []
    ensures var ops := Steps(H, repeated, threshold, cap, st, [], chunks);
            && printed == Printed(H, repeated, st.table, ops)
            && Taken(ops) == Split(Flatten(chunks), cap).lines
            && AfterReads(H, repeated, threshold, cap, st, [], chunks).out == Join(printed, [])
  {
    RunLeads(H, repeated, threshold, cap, st, [], chunks);
    StepsTake(H, repeated, threshold, cap, st, [], chunks);
    assert [] + Flatten(chunks) == Flatten(chunks);
    printed := Printed(H, repeated, st.table, Steps(H, repeated, threshold, cap, st, [], chunks));
    assert [] + Join(printed, []) == Join(printed, []);
  }

  /** Up to the end of the input, with -D every run, losses or not, prints only repeated lines, in their order. */
  lemma RepeatedRunPrintsOnlyRepeats(H: seq<byte> -> uint64, threshold: nat -> nat, cap: nat, size: nat,
                                     chunks: seq<seq<byte>>)
    returns (printed: seq<seq<byte>>)
    requires cap > 0 && size > 0
    ensures AfterReads(H, true, threshold, cap, St(Zeros(size), 0, []), [], chunks).out == Join(printed, [])
    ensures Subsequence(printed, Repeats(H, Split(Flatten(chunks), cap).lines))
  {
    ZerosWellFormed(size);
    printed := PrintedByRun(H, true, threshold, cap, St(Zeros(size), 0, []), chunks);
    PrintsSomeRepeats(H, Zeros(size), Steps(H, true, threshold, cap, St(Zeros(size), 0, []), [], chunks));
  }

  /**
   Up to the end of the input, in unique mode a run in which no probe of a new hash gives up prints
   the first line of every hash of the input, in order.
   */
  lemma UniqueRunPrintsAllFirsts(H: seq<byte> -> uint64, threshold: nat -> nat, cap: nat, size: nat,
                                 chunks: seq<seq<byte>>)
    returns (printed: seq<seq<byte>>)
    requires cap > 0 && size > 0
    requires var ops := Steps(H, false, threshold, cap, St(Zeros(size), 0, []), [], chunks);
             forall j :: 0 <= j < |ops| ==> FirstFinds(H, Zeros(size), ops, j)
    ensures AfterReads(H, false, threshold, cap, St(Zeros(size), 0, []), [], chunks).out == Join(printed, [])
    ensures Subsequence(Firsts(H, Split(Flatten(chunks), cap).lines), printed)
  {
    ZerosWellFormed(size);
    printed := PrintedByRun(H, false, threshold, cap, St(Zeros(size), 0, []), chunks);
    PrintsAllFirsts(H, Zeros(size), Steps(H, false, threshold, cap, St(Zeros(size), 0, []), [], chunks));
  }
}
