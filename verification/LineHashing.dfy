/** What the hash of a line depends on: every byte of it, in its place, and its length. */
module LineHashing {
  import opened Basics
  import opened NlHash

  // ----- the operations of a hash

  /** What is done to the running hash, as entries of a log; a key is the log that it starts from. */
  datatype Entry = Key0 | Key1 | LengthKey(n: int) | Xored(piece: seq<byte>) | Encrypted(key: seq<Entry>)

  /** The cipher that only writes down what it is asked to do. */
  function LogCipher(fold: seq<Entry> -> uint64): Cipher<seq<Entry>> {
    Cipher([Key0], [Key1], (log, piece) => log + [Xored(piece)], (log, key) => log + [Encrypted(key)],
           n => [LengthKey(n)], fold)
  }

  /** Piece k of a line, padded with zeros. */
  predicate IsPiece(piece: seq<byte>, line: seq<byte>, k: nat) {
    |piece| == 16 && forall j :: 0 <= j < 16 ==> piece[j] == if 16 * k + j < |line| then line[16 * k + j] else 0
  }

  /** From entry at on the log absorbs the line: three entries for each piece. */
  ghost predicate LogsPieces(log: seq<Entry>, at: nat, line: seq<byte>) {
    && |log| == at + 3 * ((|line| + 15) / 16)
    && forall k :: 0 <= k < (|line| + 15) / 16 ==> LogsPiece(log, at, line, k)
  }

  ghost predicate LogsPiece(log: seq<Entry>, at: nat, line: seq<byte>, k: nat) {
    && at + 3 * k + 2 < |log|
    && log[at + 3 * k].Xored? && IsPiece(log[at + 3 * k].piece, line, k)
    && log[at + 3 * k + 1] == Encrypted([Key0]) && log[at + 3 * k + 2] == Encrypted([Key1])
  }

  /** A log that goes on with piece 0 of a line and then with the rest of it. */
  lemma LogsNext(r: seq<Entry>, log: seq<Entry>, next: seq<Entry>, line: seq<byte>)
    requires |line| > 16 && next == log + [Xored(line[..16]), Encrypted([Key0]), Encrypted([Key1])] && next <= r
    requires LogsPieces(r, |next|, line[16..])
    ensures log <= r && LogsPieces(r, |log|, line)
  {
    assert (|line| + 15) / 16 == (|line[16..]| + 15) / 16 + 1;
    assert r[|log|] == next[|log|] && r[|log| + 1] == next[|log| + 1] && r[|log| + 2] == next[|log| + 2];
    forall k | 0 <= k < (|line| + 15) / 16 ensures LogsPiece(r, |log|, line, k) {
      if k > 0 { assert LogsPiece(r, |log| + 3, line[16..], k - 1); }
    }
  }

  lemma {:induction false} AbsorbLogs(fold: seq<Entry> -> uint64, log: seq<Entry>, line: seq<byte>)
    ensures var r := Absorb(LogCipher(fold), log, line); log <= r && LogsPieces(r, |log|, line)
    decreases |line|
  {
    var c := LogCipher(fold);
    if |line| > 16 {
      var next := Mix(c, log, line[..16]);
      AbsorbLogs(fold, next, line[16..]);
      LogsNext(Absorb(c, next, line[16..]), log, next, line);
    } else if line != [] {
      var r := Absorb(c, log, line);
      assert r == log + [Xored(Pad(line)), Encrypted([Key0]), Encrypted([Key1])];
      assert LogsPiece(r, |log|, line, 0);
    }
  }

  /**
   The hash of a line of n bytes is a function of exactly these operations: it starts from the first
   round key; each piece of sixteen bytes, the last one padded with zeros, is xored in and encrypted
   with both round keys; and the result is encrypted with the key made of n.
   */
  lemma HashIsOfLog(fold: seq<Entry> -> uint64, line: seq<byte>) returns (log: seq<Entry>)
    ensures LineHash(LogCipher(fold), line) == fold(log)
    ensures |log| == 2 + 3 * ((|line| + 15) / 16)
    ensures log[0] == Key0 && log[|log| - 1] == Encrypted([LengthKey(|line|)])
    ensures LogsPieces(log[..|log| - 1], 1, line)
  {
    var c := LogCipher(fold);
    AbsorbLogs(fold, c.rk0, line);
    var absorbed := Absorb(c, c.rk0, line);
    log := absorbed + [Encrypted([LengthKey(|line|)])];
    assert log[..|log| - 1] == absorbed;
    assert c.aesenc(absorbed, c.lengthKey(|line|)) == log;
  }

  // ----- injective operations

  /** Each operation is injective in the running hash, and xor also in the piece. */
  ghost predicate Injective<H(!new)>(c: Cipher<H>) {
    && (forall x, y, p :: c.xor(x, p) == c.xor(y, p) ==> x == y)
    && (forall x, p, q :: |p| == |q| == 16 && c.xor(x, p) == c.xor(x, q) ==> p == q)
    && (forall x, y, k :: c.aesenc(x, k) == c.aesenc(y, k) ==> x == y)
  }

  lemma MixSeparates<H(!new)>(c: Cipher<H>, x: H, y: H, p: Block, q: Block)
    requires Injective(c)
    ensures x != y ==> Mix(c, x, p) != Mix(c, y, p)
    ensures p != q ==> Mix(c, x, p) != Mix(c, x, q)
  {
  }

  lemma {:induction false} AbsorbSeparates<H(!new)>(c: Cipher<H>, x: H, y: H, line: seq<byte>)
    requires Injective(c) && x != y
    ensures Absorb(c, x, line) != Absorb(c, y, line)
    decreases |line|
  {
    if |line| > 16 {
      MixSeparates(c, x, y, line[..16], line[..16]);
      AbsorbSeparates(c, Mix(c, x, line[..16]), Mix(c, y, line[..16]), line[16..]);
    } else if line != [] {
      MixSeparates(c, x, y, Pad(line), Pad(line));
    }
  }

  /** The lines differ, and only inside piece k. */
  ghost predicate DifferInPiece(a: seq<byte>, b: seq<byte>, k: nat) {
    |a| == |b| && a != b && forall i :: 0 <= i < |a| && a[i] != b[i] ==> 16 * k <= i < 16 * k + 16
  }

  lemma PadSeparates(a: seq<byte>, b: seq<byte>)
    requires |a| == |b| <= 16 && a != b
    ensures Pad(a) != Pad(b)
  {
    assert Pad(a)[..|a|] == a && Pad(b)[..|b|] == b;
  }

  lemma {:induction false} AbsorbDiffers<H(!new)>(c: Cipher<H>, h: H, a: seq<byte>, b: seq<byte>, k: nat)
    requires Injective(c) && DifferInPiece(a, b, k)
    ensures Absorb(c, h, a) != Absorb(c, h, b)
    decreases |a|
  {
    if |a| <= 16 {
      PadSeparates(a, b);
      MixSeparates(c, h, h, Pad(a), Pad(b));
    } else if k == 0 {
      assert a[16..] == b[16..];
      assert a == a[..16] + a[16..] && b == b[..16] + b[16..];
      MixSeparates(c, h, h, a[..16], b[..16]);
      AbsorbSeparates(c, Mix(c, h, a[..16]), Mix(c, h, b[..16]), a[16..]);
    } else {
      assert a[..16] == b[..16];
      assert a == a[..16] + a[16..] && b == b[..16] + b[16..];
      assert forall i :: 0 <= i < |a| - 16 ==> a[16..][i] == a[i + 16] && b[16..][i] == b[i + 16];
      AbsorbDiffers(c, Mix(c, h, a[..16]), a[16..], b[16..], k - 1);
    }
  }

  /**
   If the operations are injective, two lines that differ inside one piece only end in different
   states; their hashes are equal only if those two states are folded to the same 64 bits.
   */
  lemma HashSeparates<H(!new)>(c: Cipher<H>, a: seq<byte>, b: seq<byte>, k: nat) returns (x: H, y: H)
    requires Injective(c) && DifferInPiece(a, b, k)
    ensures x != y && LineHash(c, a) == c.fold(x) && LineHash(c, b) == c.fold(y)
  {
    AbsorbDiffers(c, c.rk0, a, b, k);
    x := c.aesenc(Absorb(c, c.rk0, a), c.lengthKey(|a|));
    y := c.aesenc(Absorb(c, c.rk0, b), c.lengthKey(|b|));
  }
}
