/**
 Cutting a byte stream into lines through a fixed buffer: the specification on the whole
 input, and the buffered loop of mmuniq-hash and mmuniq-bloom.
 */
module Lines {
  import opened Basics

  const NL: byte := 10

  /** The index of the first newline, or the length when there is none. */
  function FirstNl(s: seq<byte>): (k: nat)
    ensures k <= |s|
  {
    if s == [] || s[0] == NL then 0 else 1 + FirstNl(s[1..])
  }

  /** k bytes of s are free of newlines. */
  predicate NoNlBefore(s: seq<byte>, k: nat)
    requires k <= |s|
  {
    forall i :: 0 <= i < k ==> s[i] != NL
  }

  lemma {:induction false} FirstNlFinds(s: seq<byte>)
    ensures forall i :: 0 <= i < FirstNl(s) ==> s[i] != 10
    ensures FirstNl(s) < |s| ==> s[FirstNl(s)] == 10
  {
    if s != [] && s[0] != NL {
      FirstNlFinds(s[1..]);
      forall i | 0 <= i < FirstNl(s) ensures s[i] != NL {
        if i > 0 { assert s[i] == s[1..][i - 1]; }
      }
    }
  }

  lemma FirstNlUnique(s: seq<byte>, k: nat)
    requires k <= |s| && (k < |s| ==> s[k] == NL) && NoNlBefore(s, k)
    ensures FirstNl(s) == k
  {
    FirstNlFinds(s);
  }

  datatype Cut = Cut(lines: seq<seq<byte>>, rest: seq<byte>)

  /** Where the first line ends and where the input goes on after it. */
  datatype Head = NoLine | Line(end: nat, next: nat)

  /** A line ends at a newline among the next cap bytes, else after cap bytes. */
  function HeadOf(s: seq<byte>, cap: nat): (h: Head)
    requires cap > 0
    ensures h.Line? ==> h.end <= h.next <= |s| && 0 < h.next
    ensures h.NoLine? ==> |s| < cap
  {
    var k := FirstNl(s);
    if k < |s| && k < cap then Line(k, k + 1)
    else if |s| >= cap then Line(cap, cap)
    else NoLine
  }

  /** The lines of the whole input, and the unfinished tail. */
  function Split(s: seq<byte>, cap: nat): (r: Cut)
    requires cap > 0
    ensures |r.rest| < cap
  {
    match HeadOf(s, cap)
    case NoLine => Cut([], s)
    case Line(end, next) =>
      var more := Split(s[next..], cap);
      Cut([s[..end]] + more.lines, more.rest)
  }

  /** The tail, and every line, is free of newlines; no line is longer than the buffer. */
  lemma {:induction false} LinesAreClean(s: seq<byte>, cap: nat)
    requires cap > 0
    ensures NL !in Split(s, cap).rest
    ensures forall i :: 0 <= i < |Split(s, cap).lines| ==>
              NL !in Split(s, cap).lines[i] && |Split(s, cap).lines[i]| <= cap
    decreases |s|
  {
    FirstNlFinds(s);
    if HeadOf(s, cap).Line? {
      LinesAreClean(s[HeadOf(s, cap).next..], cap);
    }
  }

  /** Without overlong lines the input is the lines, a newline after each, and the tail. */
  function Join(lines: seq<seq<byte>>, rest: seq<byte>): seq<byte> {
    if lines == [] then rest else lines[0] + [NL] + Join(lines[1..], rest)
  }

  /** Splitting undoes joining lines shorter than the buffer. */
  lemma {:induction false} SplitJoin(lines: seq<seq<byte>>, rest: seq<byte>, cap: nat)
    requires cap > 0 && |rest| < cap && NL !in rest
    requires forall i :: 0 <= i < |lines| ==> |lines[i]| < cap && NL !in lines[i]
    ensures Split(Join(lines, rest), cap) == Cut(lines, rest)
    decreases |lines|
  {
    if lines == [] {
      FirstNlUnique(rest, |rest|);
    } else {
      var s := Join(lines, rest);
      var k := |lines[0]|;
      FirstNlUnique(s, k);
      assert s[k + 1..] == Join(lines[1..], rest) && s[..k] == lines[0];
      SplitJoin(lines[1..], rest, cap);
    }
  }

  /** The lines with a newline behind each that is shorter than the buffer, and the tail. */
  function Rejoined(lines: seq<seq<byte>>, rest: seq<byte>, cap: nat): seq<byte> {
    if lines == [] then rest
    else lines[0] + (if |lines[0]| < cap then [10 as byte] else []) + Rejoined(lines[1..], rest, cap)
  }

  /** No byte of the input is lost or added, however long its lines are. */
  lemma {:induction false} RejoinSplit(s: seq<byte>, cap: nat)
    requires cap > 0
    ensures Rejoined(Split(s, cap).lines, Split(s, cap).rest, cap) == s
    decreases |s|
  {
    match HeadOf(s, cap)
    case NoLine =>
    case Line(end, next) =>
      var more := Split(s[next..], cap);
      RejoinSplit(s[next..], cap);
      FirstNlFinds(s);
      assert ([s[..end]] + more.lines)[1..] == more.lines;
      assert s == s[..end] + s[end..next] + s[next..];
      assert s[end..next] == if end < cap then [10 as byte] else [];
  }

  lemma FirstNlAppend(a: seq<byte>, b: seq<byte>)
    ensures FirstNl(a) < |a| ==> FirstNl(a + b) == FirstNl(a)
    ensures FirstNl(a) == |a| ==> FirstNl(a + b) >= |a|
  {
    var k, m := FirstNl(a), FirstNl(a + b);
    FirstNlFinds(a);
    FirstNlFinds(a + b);
    assert forall i :: 0 <= i < |a| ==> (a + b)[i] == a[i];
    if k < |a| {
      FirstNlUnique(a + b, k);
    }
  }

  lemma HeadAppend(a: seq<byte>, b: seq<byte>, cap: nat)
    requires cap > 0 && HeadOf(a, cap).Line?
    ensures HeadOf(a + b, cap) == HeadOf(a, cap)
  {
    FirstNlAppend(a, b);
  }

  lemma SplitHead(s: seq<byte>, cap: nat, end: nat, next: nat)
    requires cap > 0 && HeadOf(s, cap) == Line(end, next)
    ensures Split(s, cap).lines == [s[..end]] + Split(s[next..], cap).lines
    ensures Split(s, cap).rest == Split(s[next..], cap).rest
  {
  }

  /** The input can be split piecewise: only the unfinished tail carries over. */
  lemma {:induction false} SplitAppend(a: seq<byte>, b: seq<byte>, cap: nat)
    requires cap > 0
    ensures Split(a + b, cap).lines == Split(a, cap).lines + Split(Split(a, cap).rest + b, cap).lines
    ensures Split(a + b, cap).rest == Split(Split(a, cap).rest + b, cap).rest
    decreases |a|
  {
    match HeadOf(a, cap)
    case NoLine =>
    case Line(end, next) =>
      SplitAppend(a[next..], b, cap);
      SplitAppendLine(a, b, cap, end, next);
  }

  /** One line more in front of the first piece. */
  lemma SplitAppendLine(a: seq<byte>, b: seq<byte>, cap: nat, end: nat, next: nat)
    requires cap > 0 && HeadOf(a, cap) == Line(end, next)
    requires Split(a[next..] + b, cap).lines
             == Split(a[next..], cap).lines + Split(Split(a[next..], cap).rest + b, cap).lines
    requires Split(a[next..] + b, cap).rest == Split(Split(a[next..], cap).rest + b, cap).rest
    ensures Split(a + b, cap).lines == Split(a, cap).lines + Split(Split(a, cap).rest + b, cap).lines
    ensures Split(a + b, cap).rest == Split(Split(a, cap).rest + b, cap).rest
  {
    var tail := a[next..];
    HeadAppend(a, b, cap);
    SplitHead(a, cap, end, next);
    SplitHead(a + b, cap, end, next);
    assert (a + b)[next..] == tail + b && (a + b)[..end] == a[..end];
    Associative([a[..end]], Split(tail, cap).lines, Split(Split(tail, cap).rest + b, cap).lines);
  }

  lemma HeadOfPrefix(s: seq<byte>, n: nat, cap: nat)
    requires cap > 0 && HeadOf(s, cap).Line? && HeadOf(s, cap).next <= n <= |s|
    ensures HeadOf(s[..n], cap) == HeadOf(s, cap)
  {
    FirstNlAppend(s[..n], s[n..]);
    assert s[..n] + s[n..] == s;
  }

  /** Without its tail a text has the same lines, and no tail. */
  lemma {:induction false} WithoutTail(s: seq<byte>, cap: nat)
    requires cap > 0
    ensures |Split(s, cap).rest| <= |s|
    ensures Split(s[..|s| - |Split(s, cap).rest|], cap) == Cut(Split(s, cap).lines, [])
    decreases |s|
  {
    match HeadOf(s, cap)
    case NoLine => assert s[..0] == [] && HeadOf([], cap) == NoLine;
    case Line(end, next) =>
      var n := |s| - |Split(s[next..], cap).rest|;
      WithoutTail(s[next..], cap);
      HeadOfPrefix(s, n, cap);
      assert s[..n][next..] == s[next..][..n - next] && s[..n][..end] == s[..end];
  }

  /** Having handed out lines and advanced to pos, what is left to hand out is the split of the rest. */
  ghost predicate Progress(total: Cut, lines: seq<seq<byte>>, left: seq<byte>, cap: nat)
    requires cap > 0
  {
    total == Cut(lines + Split(left, cap).lines, Split(left, cap).rest)
  }

  lemma ProgressLine(total: Cut, lines: seq<seq<byte>>, left: seq<byte>, cap: nat, end: nat, next: nat)
    requires cap > 0 && Progress(total, lines, left, cap) && HeadOf(left, cap) == Line(end, next)
    ensures Progress(total, lines + [left[..end]], left[next..], cap)
  {
    SplitHead(left, cap, end, next);
    Associative(lines, [left[..end]], Split(left[next..], cap).lines);
  }

  /** The same on a stretch mem[from .. to) of a buffer whose first newline is sz bytes in. */
  lemma ProgressLineAt(total: Cut, lines: seq<seq<byte>>, mem: seq<byte>, from: nat, to: nat, sz: nat, cap: nat)
    requires from <= to <= |mem| && to - from <= cap && 0 < cap
    requires FirstNl(mem[from..to]) == sz < to - from
    requires Progress(total, lines, mem[from..to], cap)
    ensures Progress(total, lines + [mem[from..from + sz]], mem[from + sz + 1..to], cap)
  {
    var left := mem[from..to];
    ProgressLine(total, lines, left, cap, sz, sz + 1);
    assert left[..sz] == mem[from..from + sz];
    assert left[sz + 1..] == mem[from + sz + 1..to];
  }

  /** What is left after the last newline is either the tail or one line that fills the buffer. */
  lemma LastLine(total: Cut, handled: seq<seq<byte>>, left: seq<byte>, cap: nat)
    requires 0 < cap && |left| <= cap && FirstNl(left) == |left| && Progress(total, handled, left, cap)
    ensures if |left| == cap then total == Cut(handled + [left], []) else total == Cut(handled, left)
  {
    if |left| == cap {
      ProgressLine(total, handled, left, cap, cap, cap);
      assert left[..cap] == left && left[cap..] == [];
      assert HeadOf([], cap) == NoLine;
      assert handled + [left] + [] == handled + [left];
    } else {
      assert HeadOf(left, cap) == NoLine;
      assert handled + [] == handled;
    }
  }

  /** memchr for a newline in buf[from .. to). */
  method FindNl(buf: array<byte>, from: nat, to: nat) returns (at: Option<nat>)
    requires from <= to <= buf.Length
    ensures at.Some? <==> FirstNl(buf[from..to]) < to - from
    ensures at.Some? ==> at.value == from + FirstNl(buf[from..to])
  {
    var i := from;
    while i < to
      invariant from <= i <= to
      invariant forall j :: from <= j < i ==> buf[j] != NL
    {
      if buf[i] == NL {
        FirstNlUnique(buf[from..to], i - from);
        return Some(i);
      }
      i := i + 1;
    }
    FirstNlUnique(buf[from..to], to - from);
    at := None;
  }

  lemma Slices(buf: array<byte>, from: nat, to: nat, k: nat)
    requires from + k < to <= buf.Length
    ensures buf[..][from..to] == buf[from..to] && buf[..][from..from + k] == buf[from..from + k]
    ensures buf[..][from + k + 1..to] == buf[from + k + 1..to]
  {
  }

  /** The length of the next complete line in buf[from .. to), if there is one. */
  method FindLine(buf: array<byte>, from: nat, to: nat, ghost total: Cut, ghost lines: seq<seq<byte>>)
    returns (sz: Option<nat>)
    requires from <= to <= buf.Length && 0 < buf.Length
    requires Progress(total, lines, buf[from..to], buf.Length)
    ensures sz.None? ==> FirstNl(buf[from..to]) == to - from
    ensures sz.Some? ==> from + sz.value < to
                         && Progress(total, lines + [buf[from..from + sz.value]],
                                     buf[from + sz.value + 1..to], buf.Length)
  {
    var nl := FindNl(buf, from, to);
    if nl == None {
      return None;
    }
    sz := Some(nl.value - from);
    Slices(buf, from, to, sz.value);
    ProgressLineAt(total, lines, buf[..], from, to, sz.value, buf.Length);
  }

  /** read(): the bytes land in the buffer behind what is already there. */
  method ReadInto(buf: array<byte>, at: nat, bytes: seq<byte>)
    requires at + |bytes| <= buf.Length
    modifies buf
    ensures buf[..at + |bytes|] == old(buf[..at]) + bytes
    ensures forall j :: at + |bytes| <= j < buf.Length ==> buf[j] == old(buf[j])
  {
    for i := 0 to |bytes|
      invariant buf[..at + i] == old(buf[..at]) + bytes[..i]
      invariant forall j :: at + i <= j < buf.Length ==> buf[j] == old(buf[j])
    {
      buf[at + i] := bytes[i];
    }
  }

  /** memmove of buf[from .. to) to the front. */
  method MoveToFront(buf: array<byte>, from: nat, to: nat)
    requires from <= to <= buf.Length
    modifies buf
    ensures buf[..to - from] == old(buf[from..to])
    ensures forall j :: to - from <= j < buf.Length ==> buf[j] == old(buf[j])
  {
    for i := 0 to to - from
      invariant buf[..i] == old(buf[from..from + i])
      invariant forall j :: i <= j < buf.Length ==> buf[j] == old(buf[j])
    {
      buf[i] := buf[from + i];
    }
  }

  /** The reading loop's state; lines collects what process_line was called with. */
  class Splitter {
    const buf: array<byte>
    var bufPos: nat
    var lines: seq<seq<byte>>

    constructor (cap: nat)
      requires cap > 0
      ensures fresh(buf) && buf.Length == cap && Follows([])
    {
      buf := new byte[cap](_ => 0);
      bufPos := 0;
      lines := [];
      new;
      FirstNlUnique([], 0);
    }

    /** Having read the given input so far: its lines are processed and its tail waits in the buffer. */
    ghost predicate Follows(input: seq<byte>)
      reads this, buf
    {
      && 0 < buf.Length && bufPos < buf.Length
      && lines == Split(input, buf.Length).lines
      && buf[..bufPos] == Split(input, buf.Length).rest
    }

    /** One turn of the line loop: process_line on the next complete line, if there is one. */
    method NextLine(bufSz: nat, ghost total: Cut) returns (found: bool)
      requires bufPos <= bufSz <= buf.Length && 0 < buf.Length
      requires Progress(total, lines, buf[bufPos..bufSz], buf.Length)
      modifies this
      ensures bufPos <= bufSz && Progress(total, lines, buf[bufPos..bufSz], buf.Length)
      ensures if found then old(bufPos) < bufPos
              else bufPos == old(bufPos) && FirstNl(buf[bufPos..bufSz]) == bufSz - bufPos
    {
      var sz := FindLine(buf, bufPos, bufSz, total, lines);
      if sz == None {
        return false;
      }
      lines := lines + [buf[bufPos..bufPos + sz.value]];
      bufPos := bufPos + sz.value + 1;
      return true;
    }

    /** The line loop over buf[.. bufSz). */
    method SplitBuffer(bufSz: nat, ghost total: Cut)
      requires bufSz <= buf.Length && 0 < buf.Length
      requires Progress(total, lines, buf[..bufSz], buf.Length)
      modifies this
      ensures bufPos <= bufSz
      ensures FirstNl(buf[bufPos..bufSz]) == bufSz - bufPos
      ensures Progress(total, lines, buf[bufPos..bufSz], buf.Length)
    {
      bufPos := 0;
      assert buf[0..bufSz] == buf[..bufSz];
      var found := true;
      while found
        invariant bufPos <= bufSz
        invariant Progress(total, lines, buf[bufPos..bufSz], buf.Length)
        invariant !found ==> FirstNl(buf[bufPos..bufSz]) == bufSz - bufPos
        decreases bufSz - bufPos + if found then 1 else 0
      {
        found := NextLine(bufSz, total);
      }
    }

    /** One read of r > 0 bytes, the line loop, and the cut of a full buffer. */
    method ProcessRead(bytes: seq<byte>, ghost before: seq<byte>)
      requires Follows(before) && 0 < |bytes| <= buf.Length - bufPos
      modifies this, buf
      ensures Follows(before + bytes)
    {
      ghost var cap := buf.Length;
      ghost var total := Split(before + bytes, cap);
      SplitAppend(before, bytes, cap);
      ReadInto(buf, bufPos, bytes);
      var bufSz := bufPos + |bytes|;
      assert Progress(total, lines, buf[..bufSz], cap);
      SplitBuffer(bufSz, total);
      ghost var left := buf[bufPos..bufSz];
      LastLine(total, lines, left, cap);
      MoveToFront(buf, bufPos, bufSz);
      bufPos := bufSz - bufPos;
      assert buf[..bufPos] == left;
      if bufPos == buf.Length {
        lines := lines + [buf[..bufPos]];
        bufPos := 0;
      }
    }

    /**
     The whole reading loop.  The i-th read returns as many bytes as it pleases, at least one
     and at most what fits; however it cuts the input, the lines are those of the input.
     */
    method ProcessStream(input: seq<byte>, sizes: nat -> nat)
      requires Follows([])
      modifies this, buf
      ensures Follows(input)
    {
      var done := 0;
      var i := 0;
      while done < |input|
        invariant done <= |input| && Follows(input[..done])
      {
        var room := buf.Length - bufPos;
        var r := sizes(i);
        if r < 1 { r := 1; }
        if r > room { r := room; }
        if r > |input| - done { r := |input| - done; }
        assert input[..done] + input[done..done + r] == input[..done + r];
        ProcessRead(input[done..done + r], input[..done]);
        done := done + r;
        i := i + 1;
      }
      assert input[..done] == input;
    }
  }
}
