/** Absorbing a message word by word, over any word type. */
module SipWords {
  import opened Basics
  import opened SipRounds

  /** Absorbing one message word. */
  function Compress<W>(o: Ops<W>, s: State<W>, m: W): State<W> {
    var t := SipRound(o, SipRound(o, s.(v3 := o.xor(s.v3, m))));
    t.(v0 := o.xor(t.v0, m))
  }

  /** Absorbing the n words of p. */
  function CompressAll<W>(o: Ops<W>, word: seq<byte> -> W, s: State<W>, p: seq<byte>, n: nat): State<W>
    requires |p| == 8 * n
    decreases n
  {
    if n == 0 then s else CompressAll(o, word, Compress(o, s, word(p[..8])), p[8..], n - 1)
  }

  /** The final rounds. */
  function Finish<W>(o: Ops<W>, s: State<W>, ff: W): State<W> {
    var t := SipRound(o, SipRound(o, s.(v2 := o.xor(s.v2, ff))));
    SipRound(o, SipRound(o, t))
  }

  /** The state after the n words of p and the final rounds. */
  function Hash<W>(o: Ops<W>, word: seq<byte> -> W, s: State<W>, ff: W, p: seq<byte>, n: nat): State<W>
    requires |p| == 8 * n
  {
    Finish(o, CompressAll(o, word, s, p, n), ff)
  }

  /** The key xor-ed into the constants. */
  function Initial<W>(o: Ops<W>, c: State<W>, k0: W, k1: W): State<W> {
    State(o.xor(k0, c.v0), o.xor(k1, c.v1), o.xor(k0, c.v2), o.xor(k1, c.v3))
  }

  /** Zeros and the length byte fill the message up to len / 8 + 1 words. */
  function Padding(len: nat): (p: seq<byte>)
    ensures len + |p| == 8 * (len / 8 + 1)
  {
    seq(7 - len % 8, _ => 0) + [len % 0x100]
  }

  /** The four words just before they are folded. */
  function FinalWords<W>(o: Ops<W>, word: seq<byte> -> W, s: State<W>, ff: W, msg: seq<byte>): State<W> {
    Hash(o, word, s, ff, msg + Padding(|msg|), |msg| / 8 + 1)
  }

  function Fold<W>(o: Ops<W>, s: State<W>): W {
    o.xor(o.xor(s.v0, s.v1), o.xor(s.v2, s.v3))
  }

  lemma CompressOne<W>(o: Ops<W>, word: seq<byte> -> W, s: State<W>, p: seq<byte>)
    requires |p| == 8
    ensures CompressAll(o, word, s, p, 1) == Compress(o, s, word(p))
  {
    assert p[..8] == p;
  }

  lemma CompressStep<W>(o: Ops<W>, word: seq<byte> -> W, s: State<W>, p: seq<byte>, pos: nat, left: nat)
    requires |p| == pos + 8 * (left + 1)
    ensures CompressAll(o, word, s, p[pos..], left + 1)
         == CompressAll(o, word, Compress(o, s, word(p[pos..pos + 8])), p[pos + 8..], left)
  {
    assert p[pos..][..8] == p[pos..pos + 8] && p[pos..][8..] == p[pos + 8..];
  }

  /** v3 ^= m; DOUBLE_ROUND; v0 ^= m. */
  method Absorb<W(!new)>(o: Ops<W>, s: State<W>, m: W) returns (r: State<W>)
    ensures r == Compress(o, s, m)
  {
    DoubleRoundIsTwoSipRounds(o, s.(v3 := o.xor(s.v3, m)));
    r := s.(v3 := o.xor(s.v3, m));
    r := DoubleRound(o, r);
    r := r.(v0 := o.xor(r.v0, m));
  }

  /** Absorbing the words of padded from pos on gives goal. */
  ghost predicate Pending<W(!new)>(o: Ops<W>, word: seq<byte> -> W, s: State<W>, padded: seq<byte>, pos: nat,
                            left: nat, goal: State<W>) {
    |padded| == pos + 8 * left && CompressAll(o, word, s, padded[pos..], left) == goal
  }

  /** One turn of the loop. */
  method AbsorbWord<W(!new)>(o: Ops<W>, word: seq<byte> -> W, s: State<W>, src: seq<byte>, pos: nat,
                             ghost padded: seq<byte>, ghost left: nat, ghost goal: State<W>)
    returns (r: State<W>)
    requires src <= padded && pos + 8 <= |src| && Pending(o, word, s, padded, pos, left + 1, goal)
    ensures Pending(o, word, r, padded, pos + 8, left, goal)
  {
    assert padded[pos..pos + 8] == src[pos..pos + 8];
    CompressStep(o, word, s, padded, pos, left);
    r := Absorb(o, s, word(src[pos..pos + 8]));
  }

  /** The loop over the whole words of the message. */
  method CompressWords<W(!new)>(o: Ops<W>, word: seq<byte> -> W, src: seq<byte>, s0: State<W>,
                                ghost padded: seq<byte>, ghost n: nat, ghost goal: State<W>)
    returns (s: State<W>, pos: nat)
    requires src <= padded && 8 * n <= |src| < 8 * n + 8 && Pending(o, word, s0, padded, 0, n + 1, goal)
    ensures pos == 8 * n && Pending(o, word, s, padded, pos, 1, goal)
  {
    s := s0;
    pos := 0;
    ghost var left := n;
    var srcSz: nat := |src|;
    while srcSz >= 8
      invariant 0 <= left && srcSz + pos == |src| && pos + 8 * left == 8 * n
      invariant Pending(o, word, s, padded, pos, left + 1, goal)
    {
      s := AbsorbWord(o, word, s, src, pos, padded, left, goal);
      pos := pos + 8;
      srcSz := srcSz - 8;
      left := left - 1;
    }
  }

  /** v2 ^= 0xff and two DOUBLE_ROUNDs. */
  method FinishRounds<W(!new)>(o: Ops<W>, s: State<W>, ff: W) returns (r: State<W>)
    ensures r == Finish(o, s, ff)
  {
    r := s.(v2 := o.xor(s.v2, ff));
    DoubleRoundIsTwoSipRounds(o, r);
    r := DoubleRound(o, r);
    DoubleRoundIsTwoSipRounds(o, r);
    r := DoubleRound(o, r);
  }

  /** The loop, the last word, which holds the bytes that are left and the length, and the final rounds. */
  method HashMessage<W(!new)>(o: Ops<W>, word: seq<byte> -> W, src: seq<byte>, s0: State<W>, last: W, ff: W,
                       ghost padded: seq<byte>)
    returns (s: State<W>)
    requires src <= padded && |padded| == 8 * (|src| / 8 + 1) && last == word(padded[|src| / 8 * 8..])
    ensures s == Hash(o, word, s0, ff, padded, |src| / 8 + 1)
  {
    ghost var goal := CompressAll(o, word, s0, padded, |src| / 8 + 1);
    assert padded[0..] == padded;
    var pos;
    s, pos := CompressWords(o, word, src, s0, padded, |src| / 8, goal);
    CompressOne(o, word, s, padded[pos..]);
    s := Absorb(o, s, last);
    s := FinishRounds(o, s, ff);
  }
}
