/**
 SipHash-2-4 against Appendix A of the SipHash paper, and the 64-bit words apart from their
 definition.
 */
module SipVector {
  import opened Basics
  import opened Arith
  import opened Bits
  import opened LittleEndian
  import opened SipRounds
  import opened SipWords
  import opened SipHash

  // ----- the words of siphash24

  lemma RotateBy(x: uint64, b: nat, p: nat, c: nat)
    requires IsAmount(b) && p == Amount(b) && p * c == TWO64 && c == TWO64 / Amount(b)
    ensures Rotate(x, b) == x % c * p + x / c
  {
    RotateBound(x, p, c);
  }

  /** The operations on 64-bit words: the top b bits of a rotated word become the lowest ones. */
  lemma WordsAre64Bits(x: uint64, y: uint64)
    ensures Words().add(x, y) == (x + y) % 0x1_0000_0000_0000_0000
    ensures forall j: nat :: BitOf(Words().xor(x, y), j) <==> BitOf(x, j) != BitOf(y, j)
    ensures Words().rot(x, 13) == x % 0x8_0000_0000_0000 * 0x2000 + x / 0x8_0000_0000_0000
    ensures Words().rot(x, 16) == x % 0x1_0000_0000_0000 * 0x1_0000 + x / 0x1_0000_0000_0000
    ensures Words().rot(x, 17) == x % 0x8000_0000_0000 * 0x2_0000 + x / 0x8000_0000_0000
    ensures Words().rot(x, 21) == x % 0x800_0000_0000 * 0x20_0000 + x / 0x800_0000_0000
    ensures Words().rot(x, 32) == x % 0x1_0000_0000 * 0x1_0000_0000 + x / 0x1_0000_0000
  {
    forall j: nat ensures BitOf(Words().xor(x, y), j) <==> BitOf(x, j) != BitOf(y, j) {
      XorBit(x, y, j);
    }
    RotateBy(x, 13, 0x2000, 0x8_0000_0000_0000);
    RotateBy(x, 16, 0x1_0000, 0x1_0000_0000_0000);
    RotateBy(x, 17, 0x2_0000, 0x8000_0000_0000);
    RotateBy(x, 21, 0x20_0000, 0x800_0000_0000);
    RotateBy(x, 32, 0x1_0000_0000, 0x1_0000_0000);
  }

  lemma LeStep(b: seq<byte>, i: nat)
    requires i < |b|
    ensures Le(b[i..]) == b[i] + 0x100 * Le(b[i + 1..])
  {
    assert b[i..][1..] == b[i + 1..];
  }

  /** Eight bytes, the lowest first. */
  lemma LeOfEight(b: seq<byte>)
    requires |b| == 8
    ensures Le(b) == b[0] as int + 0x100 * (b[1] as int + 0x100 * (b[2] as int + 0x100 * (b[3] as int
                     + 0x100 * (b[4] as int + 0x100 * (b[5] as int + 0x100 * (b[6] as int + 0x100 * b[7] as int))))))
    ensures Le(b) < 0x1_0000_0000_0000_0000
  {
    assert b[0..] == b && b[8..] == [];
    LeStep(b, 0);
    LeStep(b, 1);
    LeStep(b, 2);
    LeStep(b, 3);
    LeStep(b, 4);
    LeStep(b, 5);
    LeStep(b, 6);
    LeStep(b, 7);
  }

  /** Eight characters as a number, the first one on top. */
  function Big(t: string): nat
    requires |t| == 8
  {
    t[7] as int + 0x100 * (t[6] as int + 0x100 * (t[5] as int + 0x100 * (t[4] as int
    + 0x100 * (t[3] as int + 0x100 * (t[2] as int + 0x100 * (t[1] as int + 0x100 * t[0] as int))))))
  }

  /** The initial state spells somepseudorandomlygeneratedbytes. */
  lemma ConstantsSpell()
    ensures Constants() == State(Big("somepseu"), Big("dorandom"), Big("lygenera"), Big("tedbytes"))
  {
  }

  // ----- the test vector of the paper

  function BvAdd(x: bv64, y: bv64): bv64 {
    x + y
  }

  function BvSub(x: bv64, y: bv64): bv64 {
    x - y
  }

  function BvXor(x: bv64, y: bv64): bv64 {
    x ^ y
  }

  function BvRotate(x: bv64, b: nat): bv64 {
    match b
    case 13 => (x << 13) | (x >> 51)
    case 16 => (x << 16) | (x >> 48)
    case 17 => (x << 17) | (x >> 47)
    case 21 => (x << 21) | (x >> 43)
    case 32 => (x << 32) | (x >> 32)
    case _ => x
  }

  function BvBack(x: bv64, b: nat): bv64 {
    match b
    case 13 => (x >> 13) | (x << 51)
    case 16 => (x >> 16) | (x << 48)
    case 17 => (x >> 17) | (x << 47)
    case 21 => (x >> 21) | (x << 43)
    case 32 => (x >> 32) | (x << 32)
    case _ => x
  }

  /** 64-bit vectors as words. */
  function BvWords(): Ops<bv64> {
    Ops(BvAdd, BvSub, BvXor, BvRotate, BvBack)
  }

  /** The two words of the message below, as bit vectors. */
  function BvWord(b: seq<byte>): bv64 {
    if Word(b) == 0x0706050403020100 then 0x0706050403020100
    else if Word(b) == 0x0f0e0d0c0b0a0908 then 0x0f0e0d0c0b0a0908
    else 0
  }

  const KEY0: bv64 := 0x0706050403020100
  const KEY1: bv64 := 0x0f0e0d0c0b0a0908

  function BvConstants(): State<bv64> {
    State(0x736f6d6570736575, 0x646f72616e646f6d, 0x6c7967656e657261, 0x7465646279746573)
  }

  /** The paper's message, the bytes 0 to 14. */
  function Message(): seq<byte> {
    [0, 1, 2, 3, 4, 5, 6, 7, 8, 9, 10, 11, 12, 13, 14]
  }

  lemma Key()
    ensures Initial(BvWords(), BvConstants(), KEY0, KEY1)
            == State(0x7469686173716475, 0x6b617f6d656e6665, 0x6b7f62616d677361, 0x7b6b696e727e6c7b)
  {
  }

  lemma PaddedMessage()
    ensures Message() + Padding(15) == [0, 1, 2, 3, 4, 5, 6, 7] + [8, 9, 10, 11, 12, 13, 14, 15]
  {
  }

  lemma LowWord(b: seq<byte>)
    requires b == [0, 1, 2, 3, 4, 5, 6, 7]
    ensures BvWord(b) == 0x0706050403020100
  {
    LeOfEight(b);
  }

  lemma HighWord(b: seq<byte>)
    requires b == [8, 9, 10, 11, 12, 13, 14, 15]
    ensures BvWord(b) == 0x0f0e0d0c0b0a0908
  {
    LeOfEight(b);
  }

  lemma FirstWord()
    ensures Compress(BvWords(), State(0x7469686173716475, 0x6b617f6d656e6665, 0x6b7f62616d677361, 0x7b6b696e727e6c7b),
                     0x0706050403020100)
            == State(0x4a017198de0a59e0, 0x0d52f6f62a4f59a4, 0x634cb3577b01fd3d, 0xa5224d6f55c7d9c8)
  {
  }

  lemma SecondWord()
    ensures Compress(BvWords(), State(0x4a017198de0a59e0, 0x0d52f6f62a4f59a4, 0x634cb3577b01fd3d, 0xa5224d6f55c7d9c8),
                     0x0f0e0d0c0b0a0908)
            == State(0x3c85b3ab6f55be51, 0x414fc3fb98efe374, 0xccf13ea527b9f4bd, 0x5293f5da84008f82)
  {
  }

  lemma FinalRounds()
    ensures Finish(BvWords(), State(0x3c85b3ab6f55be51, 0x414fc3fb98efe374, 0xccf13ea527b9f4bd, 0x5293f5da84008f82),
                   0xff)
            == State(0xf6bcd53893fecff1, 0x54b9964c7ea0d937, 0x1b38329c099bb55a, 0x1814bb89ad7be679)
  {
  }

  lemma Folded(s: State<bv64>)
    requires s == State(0xf6bcd53893fecff1, 0x54b9964c7ea0d937, 0x1b38329c099bb55a, 0x1814bb89ad7be679)
    ensures Fold(BvWords(), s) == 0xa129ca6149be45e5
  {
  }

  /** A message of two words, its states given one after the other. */
  lemma TwoWords<W>(o: Ops<W>, word: seq<byte> -> W, ff: W, msg: seq<byte>, low: seq<byte>, high: seq<byte>,
                    s0: State<W>, s1: State<W>, s2: State<W>)
    requires |msg| == 15 && |low| == |high| == 8 && msg + Padding(15) == low + high
    requires Compress(o, s0, word(low)) == s1 && Compress(o, s1, word(high)) == s2
    ensures FinalWords(o, word, s0, ff, msg) == Finish(o, s2, ff)
  {
    var p := low + high;
    assert p[..8] == low && p[8..] == high && high[..8] == high;
    assert CompressAll(o, word, s0, p, 2) == CompressAll(o, word, s1, high, 1);
  }

  lemma PaperState(s0: State<bv64>, s1: State<bv64>, s2: State<bv64>, low: seq<byte>, high: seq<byte>)
    requires low == [0, 1, 2, 3, 4, 5, 6, 7] && high == [8, 9, 10, 11, 12, 13, 14, 15]
    requires Compress(BvWords(), s0, 0x0706050403020100) == s1 && Compress(BvWords(), s1, 0x0f0e0d0c0b0a0908) == s2
    ensures FinalWords(BvWords(), BvWord, s0, 0xff, Message()) == Finish(BvWords(), s2, 0xff)
  {
    PaddedMessage();
    LowWord(low);
    HighWord(high);
    TwoWords(BvWords(), BvWord, 0xff, Message(), low, high, s0, s1, s2);
  }

  /** The state and the hash that the paper gives. */
  lemma PaperVector()
    ensures var s := FinalWords(BvWords(), BvWord, Initial(BvWords(), BvConstants(), KEY0, KEY1), 0xff, Message());
            && s == State(0xf6bcd53893fecff1, 0x54b9964c7ea0d937, 0x1b38329c099bb55a, 0x1814bb89ad7be679)
            && Fold(BvWords(), s) == 0xa129ca6149be45e5
  {
    Key();
    FirstWord();
    SecondWord();
    FinalRounds();
    PaperState(State(0x7469686173716475, 0x6b617f6d656e6665, 0x6b7f62616d677361, 0x7b6b696e727e6c7b),
               State(0x4a017198de0a59e0, 0x0d52f6f62a4f59a4, 0x634cb3577b01fd3d, 0xa5224d6f55c7d9c8),
               State(0x3c85b3ab6f55be51, 0x414fc3fb98efe374, 0xccf13ea527b9f4bd, 0x5293f5da84008f82),
               [0, 1, 2, 3, 4, 5, 6, 7], [8, 9, 10, 11, 12, 13, 14, 15]);
    Folded(FinalWords(BvWords(), BvWord, Initial(BvWords(), BvConstants(), KEY0, KEY1), 0xff, Message()));
  }
}
