/**
 The driver of mmuniq: a read buffer, a queue of up to 128 lines that point into it, an output
 buffer and a table that doubles.  The queue only postpones work, and the output buffer never
 overflows.
 */
module Mmuniq {
  import opened Basics
  import opened Arith
  import opened Lines
  import opened HashTable
  import opened Dedup
  import opened Finder
  import opened EndOfInput
  import NlHash

  const C_LINE_SZ := 128

  /** A queued line: where it lies in the read buffer, and its hash. */
  datatype CLine = CLine(s: nat, l: nat, h: uint64)

  function Bytes(lines: seq<seq<byte>>): nat
    decreases |lines|
  {
    if lines == [] then 0 else Bytes(lines[..|lines| - 1]) + |lines[|lines| - 1]| + 1
  }

  class Driver<W(!new)> {
    /** The find_nl_and_hash in use, and the hash it computes from the bytes of a line. */
    const variant: Variant<W>
    ghost const H: seq<byte> -> uint64
    /** What lies behind the read buffer: find_nl_and_hash loads up to 15 bytes of it. */
    const after: seq<byte>
    const repeated: bool
    /** fill_threshold as a function of the table size. */
    const threshold: nat -> nat
    const buf: array<byte>
    const outBuf: array<byte>
    const cLines: array<CLine>
    var bm: array<uint64>
    ghost var k: nat
    var bufPos: nat
    var cPos: nat
    var outPos: nat
    var items: nat
    /** What write() has been given so far. */
    var stdout: seq<byte>
    /** The lines that the queue stands for. */
    ghost var queued: seq<seq<byte>>

    constructor (cap: nat, size: nat, k: nat, variant: Variant<W>, after: seq<byte>, repeated: bool,
                 threshold: nat -> nat)
      requires cap > 0 && size == Pow2(k) && |after| >= 15
      ensures Idle() && fresh(bm) && fresh(buf) && fresh(outBuf) && fresh(cLines)
      ensures bufPos == 0 && Now() == St(Zeros(size), 0, []) && buf[..] == seq(cap, _ => 0)
      ensures this.variant == variant && H == HashFn(variant) && this.repeated == repeated
              && this.threshold == threshold
    {
      this.variant := variant;
      this.after := after;
      H := HashFn(variant);
      this.repeated := repeated;
      this.threshold := threshold;
      buf := new byte[cap](_ => 0);
      outBuf := new byte[2 * cap](_ => 0);
      cLines := new CLine[C_LINE_SZ](_ => CLine(0, 0, 0));
      bm := new uint64[size](_ => 0);
      this.k := k;
      bufPos, cPos, outPos, items := 0, 0, 0, 0;
      stdout := [];
      queued := [];
      new;
      assert bm[..] == Zeros(size);
    }

    ghost predicate Shape()
      reads this
    {
      && 0 < buf.Length && outBuf.Length == 2 * buf.Length && cLines.Length == C_LINE_SZ
      && bm.Length == Pow2(k) && 15 <= |after| && H == HashFn(variant)
      && buf != outBuf && buf as object != bm as object && outBuf as object != bm as object
      && outPos <= buf.Length + 1
    }

    /** The queue entries point at exactly the bytes of the queued lines. */
    ghost predicate QueueHolds()
      reads this, buf, cLines
    {
      && cPos == |queued| <= cLines.Length
      && forall i :: 0 <= i < cPos ==> EntryHolds(cLines[i], queued[i])
    }

    ghost predicate EntryHolds(c: CLine, line: seq<byte>)
      reads this, buf
    {
      EntryAt(c, line) && c.h == H(line)
    }

    ghost predicate EntryAt(c: CLine, line: seq<byte>)
      reads this, buf
    {
      c.s + c.l <= buf.Length && buf[c.s..c.s + c.l] == line
    }

    /** Table, count and output, counting what still waits in the output buffer. */
    ghost function Now(): St
      reads this`bm, this`items, this`stdout, this`outPos, bm, outBuf
      requires outPos <= outBuf.Length
    {
      St(bm[..], items, stdout + outBuf[..outPos])
    }

    /** The state as if every queued line had been handled at once. */
    ghost function Virtual(): St
      reads this`bm, this`items, this`stdout, this`outPos, this`queued, bm, outBuf
      requires outPos <= outBuf.Length && bm.Length > 0
    {
      EmitAll(H, repeated, Now(), queued)
    }

    /** Between two reads: nothing is queued and everything is written. */
    ghost predicate Idle()
      reads this, buf, cLines
    {
      Shape() && QueueHolds() && queued == [] && outPos == 0 && bufPos < buf.Length
    }

    /** memcpy of the line and its newline to the output buffer. */
    method CopyOut(c: CLine, ghost line: seq<byte>)
      requires Shape() && EntryAt(c, line) && outPos + |line| + 1 <= buf.Length + 1
      modifies this`outPos, outBuf
      ensures outPos == old(outPos) + |line| + 1
      ensures outBuf[..outPos] == old(outBuf[..outPos]) + (line + [NL])
    {
      var i := 0;
      while i < c.l
        invariant i <= c.l == |line|
        invariant outBuf[..outPos + i] == old(outBuf[..outPos]) + line[..i]
        invariant buf[c.s..c.s + c.l] == line
        modifies outBuf
      {
        assert line[i] == buf[c.s + i];
        outBuf[outPos + i] := buf[c.s + i];
        i := i + 1;
      }
      assert line[..i] == line;
      outPos := outPos + c.l;
      outBuf[outPos] := NL;
      outPos := outPos + 1;
    }

    /** The line is copied out if its insertion says so; the abort is never reached. */
    method CopyIfWanted(c: CLine, miss: int, ghost line: seq<byte>)
      requires Shape() && EntryAt(c, line) && outPos + |line| + 1 <= buf.Length + 1
      modifies this`outPos, outBuf
      ensures outPos <= old(outPos) + |line| + 1
      ensures outBuf[..outPos] == old(outBuf[..outPos]) + if Prints(repeated, miss) then line + [NL] else []
    {
      if (!repeated && miss == 1) || (repeated && miss == 0) {
        CopyOut(c, line);
        if outPos > buf.Length + 1 {
          // abort()
          assert false;
        }
      }
    }

    /** process_flush on one queue entry. */
    method ProcessFlush(c: CLine, ghost line: seq<byte>)
      requires Shape() && EntryAt(c, line) && outPos + |line| + 1 <= buf.Length + 1
      modifies this`items, this`outPos, bm, outBuf
      ensures Shape() && Now() == EmitAs(c.h, repeated, old(Now()), line)
      ensures outPos <= old(outPos) + |line| + 1
    {
      ghost var before := Now();
      var miss := HashInsert(c.h, bm, k);
      ghost var ins := Insertion(bm[..], miss);
      if miss == 1 {
        items := items + 1;
      }
      ghost var pending := outBuf[..outPos];
      CopyIfWanted(c, miss, line);
      Associative(stdout, pending, if Prints(repeated, miss) then line + [NL] else []);
      assert Now() == EmitWith(ins, repeated, before, line);
    }

    /** process_flush on queue entry i. */
    method FlushEntry(i: nat)
      requires Shape() && QueueHolds() && i < cPos
      requires outPos + |queued[i]| + 1 <= buf.Length + 1
      modifies this`items, this`outPos, bm, outBuf
      ensures Shape() && QueueHolds()
      ensures Now() == Emit(H, repeated, old(Now()), queued[i])
      ensures outPos <= old(outPos) + |queued[i]| + 1
    {
      ProcessFlush(cLines[i], queued[i]);
    }

    /** One turn of the flush loop. */
    method FlushOne(i: nat, ghost start: St, ghost lines: seq<seq<byte>>)
      requires Shape() && QueueHolds() && i < cPos && lines == queued
      requires |start.table| > 0 && Now() == EmitAll(H, repeated, start, lines[..i])
      requires outPos + |lines[i]| + 1 <= buf.Length + 1
      modifies this`items, this`outPos, bm, outBuf
      ensures Shape() && QueueHolds()
      ensures Now() == EmitAll(H, repeated, start, lines[..i + 1])
      ensures outPos <= old(outPos) + |lines[i]| + 1
    {
      ghost var now := Now();
      FlushEntry(i);
      EmitNext(H, repeated, start, lines, i, now);
    }

    /** The flush loop of process_line. */
    method FlushQueue()
      requires Shape() && QueueHolds() && outPos + Bytes(queued) <= buf.Length + 1
      modifies this`items, this`outPos, this`cPos, this`queued, bm, outBuf
      ensures Shape() && QueueHolds() && queued == []
      ensures Now() == old(Virtual())
      ensures outPos <= old(outPos) + old(Bytes(queued))
    {
      ghost var start := Now();
      var i := 0;
      assert Bytes(queued[..0]) == 0;
      while i < cPos
        modifies this`items, this`outPos, bm, outBuf
        invariant i <= cPos && Shape() && QueueHolds()
        invariant Now() == EmitAll(H, repeated, start, queued[..i])
        invariant outPos <= old(outPos) + Bytes(queued[..i])
      {
        BytesPrefix(queued, i);
        FlushOne(i, start, queued);
        i := i + 1;
      }
      assert queued[..i] == queued;
      cPos := 0;
      queued := [];
    }

    method Enqueue(s: nat, l: nat, h: uint64, ghost line: seq<byte>)
      requires h == H(line) && Shape() && QueueHolds() && cPos < C_LINE_SZ && s + l <= buf.Length
               && buf[s..s + l] == line
      modifies this`cPos, this`queued, cLines
      ensures Shape() && QueueHolds() && queued == old(queued) + [line]
      ensures Bytes(queued) == old(Bytes(queued)) + l + 1
      ensures Now() == old(Now())
    {
      cLines[cPos] := CLine(s, l, h);
      cPos := cPos + 1;
      BytesOneMore(queued, line);
      queued := queued + [line];
    }

    /** process_line(s, l, h, 0): queue the line, flush when the queue is full. */
    method ProcessLine(s: nat, l: nat, h: uint64, ghost line: seq<byte>)
      requires h == H(line) && Shape() && QueueHolds() && cPos < C_LINE_SZ && s + l <= buf.Length
               && buf[s..s + l] == line
      requires outPos + Bytes(queued) + l + 1 <= buf.Length + 1
      modifies this`items, this`outPos, this`cPos, this`queued, bm, outBuf, cLines
      ensures Shape() && QueueHolds() && cPos < C_LINE_SZ
      ensures Virtual() == Emit(H, repeated, old(Virtual()), line)
      ensures outPos + Bytes(queued) <= old(outPos) + old(Bytes(queued)) + l + 1
    {
      EmitOne(H, repeated, Now(), queued, line);
      Enqueue(s, l, h, line);
      if cPos == C_LINE_SZ {
        FlushQueue();
      }
    }

    /** process_line(NULL, 0, 0, 1): flush the queue and write the output buffer. */
    method ForceOut()
      requires Shape() && QueueHolds() && outPos + Bytes(queued) <= buf.Length + 1
      modifies this`items, this`outPos, this`cPos, this`queued, this`stdout, bm, outBuf
      ensures Shape() && QueueHolds() && queued == [] && outPos == 0
      ensures Now() == old(Virtual())
    {
      FlushQueue();
      WriteOut();
    }

    /** write() of the output buffer. */
    method WriteOut()
      requires Shape()
      modifies this`outPos, this`stdout
      ensures Shape() && outPos == 0 && Now() == old(Now())
    {
      assert stdout + outBuf[..outPos] + outBuf[..0] == stdout + outBuf[..outPos];
      stdout := stdout + outBuf[..outPos];
      outPos := 0;
    }

    /** In the middle of a read: the state so far, and room in the output buffer for the rest. */
    ghost predicate InRead(now: St)
      reads this, buf, cLines, bm, outBuf
    {
      && Shape() && QueueHolds() && cPos < C_LINE_SZ && bufPos <= buf.Length
      && |now.table| > 0 && Virtual() == now
      && outPos + Bytes(queued) <= bufPos
    }

    /** process_line on the complete line at bufPos, and the step past its newline. */
    method HandleLine(sz: nat, h: uint64, ghost line: seq<byte>, ghost now: St)
      requires InRead(now) && bufPos + sz < buf.Length
      requires buf[bufPos..bufPos + sz] == line && h == H(line)
      modifies this`items, this`outPos, this`cPos, this`queued, this`bufPos, bm, outBuf, cLines
      ensures InRead(Emit(H, repeated, now, line)) && bufPos == old(bufPos) + sz + 1 && buf[..] == old(buf[..])
    {
      ProcessLine(bufPos, sz, h, line);
      bufPos := bufPos + sz + 1;
    }

    /** find_nl_and_hash on s[from .. to), the contents of the buffer. */
    method FindFrom(s: seq<byte>, from: nat, to: nat) returns (sz: Option<nat>, h: uint64)
      requires from <= to <= |s| && 15 <= |after| && H == HashFn(variant)
      ensures sz == if FirstNl(s[from..to]) < to - from then Some(FirstNl(s[from..to])) else None
      ensures h == H(s[from..from + FirstNl(s[from..to])])
    {
      var nl;
      nl, h := Find(variant, s + after, from, to - from);
      LineInBuffer(s, after, from, to);
      sz := if nl == None then None else Some(nl.value - from);
    }

    /** The same, with what it means for the lines still to be handled. */
    method FindHashed(s: seq<byte>, from: nat, to: nat, ghost total: Cut, ghost handled: seq<seq<byte>>)
      returns (sz: Option<nat>, h: uint64, ghost line: seq<byte>)
      requires Left(total, handled, s, from, to) && 15 <= |after| && H == HashFn(variant)
      ensures sz.None? ==> FirstNl(s[from..to]) == to - from
      ensures sz.Some? ==> from + sz.value < to && line == s[from..from + sz.value] && h == H(line)
                           && Left(total, handled + [line], s, from + sz.value + 1, to)
    {
      sz, h := FindFrom(s, from, to);
      line := [];
      if sz != None {
        line := s[from..from + sz.value];
        ProgressLineAt(total, handled, s, from, to, sz.value, |s|);
      }
    }

    /** One turn of the line loop. */
    method NextLine(bufSz: nat, ghost s: seq<byte>, ghost total: Cut, ghost handled: seq<seq<byte>>, ghost now: St)
      returns (found: bool, ghost line: seq<byte>)
      requires InRead(now) && s == buf[..] && Left(total, handled, s, bufPos, bufSz)
      modifies this`items, this`outPos, this`cPos, this`queued, this`bufPos, bm, outBuf, cLines
      ensures InRead(if found then Emit(H, repeated, now, line) else now)
      ensures s == buf[..] && Left(total, if found then handled + [line] else handled, s, bufPos, bufSz)
      ensures if found then old(bufPos) < bufPos
              else bufPos == old(bufPos) && FirstNl(s[bufPos..bufSz]) == bufSz - bufPos
    {
      var sz, h;
      sz, h, line := FindHashed(buf[..], bufPos, bufSz, total, handled);
      found := sz.Some?;
      if found {
        HandleLine(sz.value, h, line, now);
        assert Left(total, handled + [line], s, bufPos, bufSz);
      }
    }

    /** The line loop and the forced flush behind it. */
    method HandleLines(bufSz: nat, ghost total: Cut, ghost start: St) returns (ghost handled: seq<seq<byte>>)
      requires bufPos == 0 && InRead(start) && Left(total, [], buf[..], 0, bufSz)
      modifies this`items, this`outPos, this`cPos, this`queued, this`bufPos, this`stdout, bm, outBuf, cLines
      ensures Shape() && QueueHolds() && queued == [] && outPos == 0 && bufPos <= bufSz
      ensures Left(total, handled, buf[..], bufPos, bufSz) && buf[..] == old(buf[..])
      ensures FirstNl(buf[..][bufPos..bufSz]) == bufSz - bufPos
      ensures Now() == EmitAll(H, repeated, start, handled)
    {
      handled := [];
      ghost var now := start;
      var found := true;
      while found
        modifies this`items, this`outPos, this`cPos, this`queued, this`bufPos, bm, outBuf, cLines
        invariant InRead(now) && now == EmitAll(H, repeated, start, handled) && buf[..] == old(buf[..])
        invariant Left(total, handled, buf[..], bufPos, bufSz)
        invariant !found ==> FirstNl(buf[..][bufPos..bufSz]) == bufSz - bufPos
        decreases bufSz - bufPos + if found then 1 else 0
      {
        ghost var line;
        found, line := NextLine(bufSz, buf[..], total, handled, now);
        if found {
          EmitOne(H, repeated, start, handled, line);
          handled, now := handled + [line], Emit(H, repeated, now, line);
        }
      }
      ForceOut();
    }

    /** process_line(s, l, h, 1) on an empty queue: the queue is one entry long, which is flushed and written. */
    method ForceLine(c: CLine, ghost line: seq<byte>)
      requires Shape() && QueueHolds() && queued == [] && outPos == 0 && EntryAt(c, line)
      modifies this`items, this`outPos, this`cPos, this`stdout, bm, outBuf, cLines
      ensures Shape() && QueueHolds() && outPos == 0
      ensures Now() == EmitAs(c.h, repeated, old(Now()), line)
    {
      cLines[cPos] := c;
      cPos := cPos + 1;
      ProcessFlush(cLines[0], line);
      cPos := 0;
      WriteOut();
    }

    /** The whole buffer is handled as one line, under the hash of what stands in front of its first newline. */
    method HandleWholeBuffer()
      requires Shape() && QueueHolds() && queued == [] && outPos == 0
      modifies this`items, this`outPos, this`cPos, this`stdout, bm, outBuf, cLines
      ensures Shape() && QueueHolds() && outPos == 0
      ensures Now() == EmitAs(H(FirstLine(buf[..])), repeated, old(Now()), buf[..])
    {
      var sz, h := FindFrom(buf[..], 0, buf.Length);
      assert buf[..][0..buf.Length] == buf[..];
      ForceLine(CLine(0, buf.Length, h), buf[..]);
    }

    /** The doubling at the end of the loop body. */
    method MaybeResize()
      requires Idle()
      modifies this`bm, this`k
      ensures Idle() && (fresh(bm) || bm == old(bm))
      ensures Now() == Settle(threshold, old(Now()))
    {
      if items > threshold(bm.Length) {
        bm := Resize(bm, k);
        k := k + 1;
      }
    }

    /** memmove of what is left to the front of the buffer s. */
    method MoveRest(bufSz: nat, ghost s: seq<byte>, ghost left: seq<byte>)
      requires Shape() && QueueHolds() && queued == [] && bufPos <= bufSz <= buf.Length
      requires s == buf[..] && left == s[bufPos..bufSz]
      modifies this`bufPos, buf
      ensures Shape() && QueueHolds() && bufPos == |left| && buf[..] == left + s[|left|..] && Now() == old(Now())
    {
      assert buf[bufPos..bufSz] == left;
      MoveToFront(buf, bufPos, bufSz);
      bufPos := bufSz - bufPos;
    }

    /** The bytes behind the last newline move to the front; if they fill the buffer they are a line. */
    method HandleRest(bufSz: nat, ghost s: seq<byte>, ghost left: seq<byte>, ghost total: Cut,
                      ghost handled: seq<seq<byte>>)
      requires Shape() && QueueHolds() && queued == [] && outPos == 0 && bufPos <= bufSz <= buf.Length
      requires s == buf[..] && left == s[bufPos..bufSz] && FirstNl(left) == |left|
      requires total == if |left| == |s| then Cut(handled + [left], []) else Cut(handled, left)
      modifies this`items, this`outPos, this`cPos, this`queued, this`bufPos, this`stdout, bm, buf, outBuf, cLines
      ensures Idle() && bufPos == |total.rest| && buf[..] == total.rest + s[|total.rest|..]
      ensures Now() == if |left| == |s| then Emit(H, repeated, old(Now()), left) else old(Now())
    {
      MoveRest(bufSz, s, left);
      if bufPos == buf.Length {
        assert buf[..] == left == s;
        HandleWholeBuffer();
        bufPos := 0;
      }
    }

    /** The line loop, the memmove and the full buffer, on the buffer contents s up to bufSz. */
    method HandleBuffer(bufSz: nat, ghost s: seq<byte>, ghost total: Cut)
      requires bufPos == 0 && Shape() && QueueHolds() && queued == [] && outPos == 0 && bufSz <= buf.Length
      requires s == buf[..] && total == Split(s[..bufSz], |s|)
      modifies this`items, this`outPos, this`cPos, this`queued, this`bufPos, this`stdout, bm, buf, outBuf, cLines
      ensures Idle() && bufPos == |total.rest| && buf[..] == total.rest + s[|total.rest|..]
      ensures Now() == EmitAll(H, repeated, old(Now()), total.lines)
    {
      ghost var start := Now();
      AllIsLeft(s, bufSz, total);
      ghost var handled := HandleLines(bufSz, total, start);
      ghost var left := s[bufPos..bufSz];
      LastLine(total, handled, left, |s|);
      EmitOne(H, repeated, start, handled, left);
      HandleRest(bufSz, s, left, total, handled);
    }

    /** One turn of the reading loop, for a read that returned bytes. */
    method ProcessRead(bytes: seq<byte>)
      requires Idle() && 0 < |bytes| <= buf.Length - bufPos
      modifies this, bm, buf, outBuf, cLines
      ensures Idle() && (fresh(bm) || bm == old(bm))
      ensures buf[..] == BufferAfterRead(old(buf[..]), old(buf[..bufPos]), bytes)
      ensures var cut := Split(old(buf[..bufPos]) + bytes, buf.Length);
              buf[..bufPos] == cut.rest
              && Now() == Settle(threshold, EmitAll(H, repeated, old(Now()), cut.lines))
    {
      ghost var before, pending := buf[..], buf[..bufPos];
      var bufSz := TakeIn(bytes, before);
      ghost var s, total := buf[..], Split(buf[..][..bufSz], |buf[..]|);
      HandleBuffer(bufSz, s, total);
      TurnOfBuffer(before, pending, bytes, s, total, buf[..]);
      assert buf[..bufPos] == buf[..][..bufPos];
      MaybeResize();
    }

    /** read() behind the unfinished line. */
    method TakeIn(bytes: seq<byte>, ghost before: seq<byte>) returns (bufSz: nat)
      requires Idle() && |bytes| <= buf.Length - bufPos && before == buf[..]
      modifies this`bufPos, buf
      ensures Idle() && bufPos == 0 && bufSz == old(bufPos) + |bytes| <= |before| && Now() == old(Now())
      ensures buf[..] == before[..old(bufPos)] + bytes + before[bufSz..]
    {
      assert before[..bufPos] == buf[..bufPos];
      ReadInto(buf, bufPos, bytes);
      bufSz := bufPos + |bytes|;
      assert buf[..][bufSz..] == before[bufSz..];
      bufPos := 0;
    }

    /** The reading loop up to the end of the input, for any sequence of reads that fit. */
    method ProcessReads(chunks: seq<seq<byte>>)
      requires Idle() && NL !in buf[..bufPos] && ReadsFit(buf[..bufPos], chunks, buf.Length)
      modifies this, bm, buf, outBuf, cLines
      ensures Idle() && (fresh(bm) || bm == old(bm))
              && buf[..bufPos] == TailAfter(old(buf[..bufPos]), chunks, buf.Length)
      ensures buf[..] == BufferAfter(old(buf[..]), old(buf[..bufPos]), chunks)
      ensures Now() == AfterReads(H, repeated, threshold, buf.Length, old(Now()), old(buf[..bufPos]), chunks)
    {
      ghost var cap, pending := buf.Length, buf[..bufPos];
      ghost var goal := Goal(AfterReads(H, repeated, threshold, cap, Now(), pending, chunks),
                             BufferAfter(buf[..], pending, chunks), TailAfter(pending, chunks, cap));
      assert chunks[0..] == chunks;
      for i := 0 to |chunks|
        invariant Idle() && (fresh(bm) || bm == old(bm)) && pending == buf[..bufPos]
        invariant ReadsLeadTo(H, repeated, threshold, Now(), buf[..], pending, chunks[i..], goal)
      {
        OneReadCloser(H, repeated, threshold, Now(), buf[..], pending, chunks, i, goal);
        ProcessRead(chunks[i]);
        pending := buf[..bufPos];
      }
      assert chunks[|chunks|..] == [];
    }

    /** The line loop on a buffer that holds no more than the unfinished tail. */
    method NoLineLeft(tail: seq<byte>)
      requires Idle() && NL !in tail && tail == buf[..bufPos]
      modifies this, bm, outBuf, cLines
      ensures Idle() && bufPos == |tail| && bm == old(bm)
      ensures Now() == old(Now()) && buf[..] == old(buf[..])
    {
      ghost var start, s := Now(), buf[..];
      var bufSz := bufPos;
      bufPos := 0;
      TailIsLeft(s, tail);
      ghost var handled := HandleLines(bufSz, Cut([], tail), start);
      NothingHandled(handled, s[bufPos..bufSz], tail, |s|);
      bufPos := bufSz - bufPos;
    }

    /**
     The turn in which read() returns 0.  The lines are done, but the whole buffer is handled once
     more as a line: the unfinished tail with whatever earlier reads left behind it.
     */
    method EndOfInput()
      requires Idle() && NL !in buf[..bufPos]
      modifies this, bm, buf, outBuf, cLines
      ensures Idle() && bufPos == 0 && buf[..] == old(buf[..])
      ensures Now() == EmitAs(H(FirstLine(buf[..])), repeated, old(Now()), buf[..])
    {
      NoLineLeft(buf[..bufPos]);
      HandleWholeBuffer();
      bufPos := 0;
    }

    /** main's loop: the reads, the empty read, and the write of what is left. */
    method Run(chunks: seq<seq<byte>>)
      requires Idle() && bufPos == 0 && ReadsFit([], chunks, buf.Length)
      modifies this, bm, buf, outBuf, cLines
      ensures Idle() && bufPos == 0
      ensures buf[..] == BufferAfter(old(buf[..]), [], chunks)
      ensures Now() == WholeRun(H, repeated, threshold, old(buf[..]), old(Now()), chunks)
    {
      assert buf[..bufPos] == [];
      ProcessReads(chunks);
      TailIsRest([], chunks, buf.Length);
      assert [] + Flatten(chunks) == Flatten(chunks);
      LinesAreClean(Flatten(chunks), buf.Length);
      EndOfInput();
    }
  }

  /** Of the buffer contents s, the stretch from .. to is still to be handled. */
  ghost predicate Left(total: Cut, handled: seq<seq<byte>>, s: seq<byte>, from: nat, to: nat) {
    0 < |s| && from <= to <= |s| && Progress(total, handled, s[from..to], |s|)
  }

  lemma TurnOfBuffer(before: seq<byte>, pending: seq<byte>, bytes: seq<byte>, s: seq<byte>, total: Cut, now: seq<byte>)
    requires 0 < |before| && |pending| + |bytes| <= |before| && pending <= before
    requires s == pending + bytes + before[|pending| + |bytes|..] && total == Split(s[..|pending| + |bytes|], |s|)
    requires now == total.rest + s[|total.rest|..]
    ensures total == Split(pending + bytes, |before|) && now == BufferAfterRead(before, pending, bytes)
    ensures now[..|total.rest|] == total.rest
  {
    assert s[..|pending| + |bytes|] == pending + bytes;
  }

  lemma AllIsLeft(s: seq<byte>, to: nat, total: Cut)
    requires 0 < |s| && to <= |s| && total == Split(s[..to], |s|)
    ensures Left(total, [], s, 0, to)
  {
    assert s[0..to] == s[..to];
    assert [] + total.lines == total.lines;
  }

  lemma TailIsLeft(s: seq<byte>, tail: seq<byte>)
    requires |tail| < |s| && tail == s[..|tail|] && NL !in tail
    ensures Left(Cut([], tail), [], s, 0, |tail|)
  {
    NothingToSplit(tail, |s|);
    assert s[0..|tail|] == tail;
  }

  /** A tail without a newline is not a line yet. */
  lemma NothingHandled(handled: seq<seq<byte>>, left: seq<byte>, tail: seq<byte>, cap: nat)
    requires 0 < cap && |left| < cap && FirstNl(left) == |left| && Progress(Cut([], tail), handled, left, cap)
    ensures handled == [] && left == tail
  {
    LastLine(Cut([], tail), handled, left, cap);
  }

  /** What lies behind the buffer is not part of a line in it. */
  lemma LineInBuffer(s: seq<byte>, after: seq<byte>, from: nat, to: nat)
    requires from <= to <= |s|
    ensures NlHash.LineFrom(s + after, from, to) == s[from..from + FirstNl(s[from..to])] == FirstLine(s[from..to])
  {
    assert (s + after)[from..to] == s[from..to];
  }

  lemma EmitNext(H: seq<byte> -> uint64, repeated: bool, start: St, lines: seq<seq<byte>>, i: nat, now: St)
    requires |start.table| > 0 && i < |lines| && now == EmitAll(H, repeated, start, lines[..i])
    ensures EmitAll(H, repeated, start, lines[..i + 1]) == Emit(H, repeated, now, lines[i])
  {
    assert lines[..i + 1] == lines[..i] + [lines[i]];
    EmitOne(H, repeated, start, lines[..i], lines[i]);
  }

  lemma BytesOneMore(lines: seq<seq<byte>>, line: seq<byte>)
    ensures Bytes(lines + [line]) == Bytes(lines) + |line| + 1
  {
    assert (lines + [line])[..|lines|] == lines;
  }

  lemma BytesPrefix(lines: seq<seq<byte>>, i: nat)
    requires i < |lines|
    ensures Bytes(lines[..i + 1]) == Bytes(lines[..i]) + |lines[i]| + 1 <= Bytes(lines)
    decreases |lines| - i
  {
    assert lines[..i + 1] == lines[..i] + [lines[i]];
    BytesOneMore(lines[..i], lines[i]);
    if i + 1 < |lines| {
      BytesPrefix(lines, i + 1);
    } else {
      assert lines[..i + 1] == lines;
    }
  }
}
