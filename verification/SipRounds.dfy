/**
 The SipHash rounds over any word type with addition, exclusive or and rotation: the macros of
 csiphash.c compute the rounds of the SipHash paper (Aumasson and Bernstein, section 2), and
 lose no information.
 */
module SipRounds {

  /** The word operations, and those that undo them. */
  datatype Ops<!W> = Ops(
    add: (W, W) -> W,
    sub: (W, W) -> W,
    xor: (W, W) -> W,
    rot: (W, nat) -> W,
    back: (W, nat) -> W)

  datatype State<W> = State(v0: W, v1: W, v2: W, v3: W)

  predicate IsAmount(b: nat) {
    b in {13, 16, 17, 21, 32}
  }

  /** Subtraction undoes addition, exclusive or undoes itself, and rotations are undone. */
  ghost predicate Reversible<W(!new)>(o: Ops<W>) {
    && (forall x, y :: o.sub(o.add(x, y), y) == x && o.add(o.sub(x, y), y) == x)
    && (forall x, y :: o.xor(o.xor(x, y), y) == x)
    && (forall x, b :: IsAmount(b) ==> o.back(o.rot(x, b), b) == x && o.rot(o.back(x, b), b) == x)
  }

  // ----- the reference

  /** The upper half of the SipRound diagram. */
  function SipUpper<W>(o: Ops<W>, s: State<W>): State<W> {
    var a := s.(v0 := o.add(s.v0, s.v1), v2 := o.add(s.v2, s.v3), v1 := o.rot(s.v1, 13), v3 := o.rot(s.v3, 16));
    a.(v1 := o.xor(a.v1, a.v0), v3 := o.xor(a.v3, a.v2), v0 := o.rot(a.v0, 32))
  }

  /** The lower half. */
  function SipLower<W>(o: Ops<W>, s: State<W>): State<W> {
    var c := s.(v2 := o.add(s.v2, s.v1), v0 := o.add(s.v0, s.v3), v1 := o.rot(s.v1, 17), v3 := o.rot(s.v3, 21));
    c.(v1 := o.xor(c.v1, c.v2), v3 := o.xor(c.v3, c.v0), v2 := o.rot(c.v2, 32))
  }

  function SipRound<W>(o: Ops<W>, s: State<W>): State<W> {
    SipLower(o, SipUpper(o, s))
  }

  // ----- the macros

  /** HALF_ROUND(a, b, c, d, s, t): the four variables afterwards. */
  function HalfRound<W>(o: Ops<W>, a: W, b: W, c: W, d: W, s: nat, t: nat): (W, W, W, W) {
    var a1 := o.add(a, b);
    var c1 := o.add(c, d);
    var b1 := o.xor(o.rot(b, s), a1);
    var d1 := o.xor(o.rot(d, t), c1);
    (o.rot(a1, 32), b1, c1, d1)
  }

  /** HALF_ROUND(v0, v1, v2, v3, 13, 16) followed by HALF_ROUND(v2, v1, v0, v3, 17, 21). */
  function HalfRounds<W>(o: Ops<W>, s: State<W>): State<W> {
    var (a, b, c, d) := HalfRound(o, s.v0, s.v1, s.v2, s.v3, 13, 16);
    var (c', b', a', d') := HalfRound(o, c, b, a, d, 17, 21);
    State(a', b', c', d')
  }

  function DoubleRound<W>(o: Ops<W>, s: State<W>): State<W> {
    HalfRounds(o, HalfRounds(o, s))
  }

  /** DOUBLE_ROUND is two SipRounds, whatever the word operations do. */
  lemma DoubleRoundIsTwoSipRounds<W(!new)>(o: Ops<W>, s: State<W>)
    ensures DoubleRound(o, s) == SipRound(o, SipRound(o, s))
  {
    HalfRoundsIsSipRound(o, s);
    HalfRoundsIsSipRound(o, SipRound(o, s));
  }

  lemma HalfRoundsIsSipRound<W(!new)>(o: Ops<W>, s: State<W>)
    ensures HalfRounds(o, s) == SipRound(o, s)
  {
  }

  // ----- the rounds lose nothing

  function HalfRoundInverse<W>(o: Ops<W>, a: W, b: W, c: W, d: W, s: nat, t: nat): (W, W, W, W) {
    var a1 := o.back(a, 32);
    var b0 := o.back(o.xor(b, a1), s);
    var d0 := o.back(o.xor(d, c), t);
    (o.sub(a1, b0), b0, o.sub(c, d0), d0)
  }

  function HalfRoundsInverse<W>(o: Ops<W>, s: State<W>): State<W> {
    var (c, b, a, d) := HalfRoundInverse(o, s.v2, s.v1, s.v0, s.v3, 17, 21);
    var (a', b', c', d') := HalfRoundInverse(o, a, b, c, d, 13, 16);
    State(a', b', c', d')
  }

  function DoubleRoundInverse<W>(o: Ops<W>, s: State<W>): State<W> {
    HalfRoundsInverse(o, HalfRoundsInverse(o, s))
  }

  lemma HalfRoundUndone<W(!new)>(o: Ops<W>, a: W, b: W, c: W, d: W, s: nat, t: nat)
    requires Reversible(o) && IsAmount(s) && IsAmount(t)
    ensures var (a', b', c', d') := HalfRound(o, a, b, c, d, s, t);
            HalfRoundInverse(o, a', b', c', d', s, t) == (a, b, c, d)
    ensures var (a', b', c', d') := HalfRoundInverse(o, a, b, c, d, s, t);
            HalfRound(o, a', b', c', d', s, t) == (a, b, c, d)
  {
  }

  lemma HalfRoundsUndone<W(!new)>(o: Ops<W>, s: State<W>)
    requires Reversible(o)
    ensures HalfRoundsInverse(o, HalfRounds(o, s)) == s
    ensures HalfRounds(o, HalfRoundsInverse(o, s)) == s
  {
    var (a, b, c, d) := HalfRound(o, s.v0, s.v1, s.v2, s.v3, 13, 16);
    HalfRoundUndone(o, s.v0, s.v1, s.v2, s.v3, 13, 16);
    HalfRoundUndone(o, c, b, a, d, 17, 21);
    var (c', b', a', d') := HalfRoundInverse(o, s.v2, s.v1, s.v0, s.v3, 17, 21);
    HalfRoundUndone(o, s.v2, s.v1, s.v0, s.v3, 17, 21);
    HalfRoundUndone(o, a', b', c', d', 13, 16);
  }

  /** DOUBLE_ROUND is a bijection on the state, with an explicit inverse. */
  lemma DoubleRoundIsBijective<W(!new)>(o: Ops<W>, s: State<W>)
    requires Reversible(o)
    ensures DoubleRoundInverse(o, DoubleRound(o, s)) == s
    ensures DoubleRound(o, DoubleRoundInverse(o, s)) == s
  {
    HalfRoundsUndone(o, s);
    HalfRoundsUndone(o, HalfRounds(o, s));
    HalfRoundsUndone(o, HalfRoundsInverse(o, s));
  }
}
