/** The hexadecimal text format of the mmdist database: printing, parsing and loading. */
module Hex {
  import opened Basics
  import opened Arith
  import opened Distances

  const SPACE: byte := 0x20

  const HEX: seq<byte> := [48, 49, 50, 51, 52, 53, 54, 55, 56, 57, 97, 98, 99, 100, 101, 102]

  // ----- printing

  function HexOf(src: seq<byte>): (t: seq<byte>)
    ensures |t| == 2 * |src|
  {
    if src == [] then [] else [HEX[src[0] / 16], HEX[src[0] % 16]] + HexOf(src[1..])
  }

  /** Byte i is printed at 2i, its high half first, in lower case. */
  lemma {:induction false} HexOfAt(src: seq<byte>, i: nat)
    requires i < |src|
    ensures HexOf(src)[2 * i] as int == "0123456789abcdef"[src[i] / 16] as int
    ensures HexOf(src)[2 * i + 1] as int == "0123456789abcdef"[src[i] % 16] as int
    decreases i
  {
    if i > 0 {
      HexOfAt(src[1..], i - 1);
      assert HexOf(src)[2 * i] == HexOf(src[1..])[2 * (i - 1)];
      assert HexOf(src)[2 * i + 1] == HexOf(src[1..])[2 * (i - 1) + 1];
    } else {
      HexDigits(src[0] / 16);
      HexDigits(src[0] % 16);
    }
  }

  lemma HexDigits(d: nat)
    requires d < 16
    ensures HEX[d] as int == "0123456789abcdef"[d] as int
  {
  }

  lemma {:induction false} HexOfOneMore(src: seq<byte>, x: byte)
    ensures HexOf(src + [x]) == HexOf(src) + [HEX[x / 16], HEX[x % 16]]
  {
    if src == [] {
      assert [x][1..] == [] && HexOf([]) == [];
      assert HexOf([x]) == [HEX[x / 16], HEX[x % 16]] + HexOf([]);
    } else {
      HexOfOneMore(src[1..], x);
      assert (src + [x])[1..] == src[1..] + [x];
    }
  }

  method PutTwo(dst: array<byte>, at: nat, hi: byte, lo: byte)
    requires at + 2 <= dst.Length
    modifies dst
    ensures dst[..at + 2] == old(dst[..at]) + [hi, lo]
    ensures forall k :: at + 2 <= k < dst.Length ==> dst[k] == old(dst[k])
  {
    dst[at] := hi;
    dst[at + 1] := lo;
  }

  /** to_hex: two digits per byte and a terminating NUL. */
  method ToHex(dst: array<byte>, src: seq<byte>)
    requires 2 * |src| < dst.Length
    modifies dst
    ensures dst[..2 * |src|] == HexOf(src) && dst[2 * |src|] == 0
    ensures forall k :: 2 * |src| < k < dst.Length ==> dst[k] == old(dst[k])
  {
    var i := 0;
    while i < |src|
      invariant i <= |src|
      invariant dst[..2 * i] == HexOf(src[..i])
      invariant forall k :: 2 * i <= k < dst.Length ==> dst[k] == old(dst[k])
    {
      HexOfOneMore(src[..i], src[i]);
      assert src[..i + 1] == src[..i] + [src[i]];
      PutTwo(dst, i * 2, HEX[src[i] / 16], HEX[src[i] % 16]);
      i := i + 1;
    }
    assert src[..i] == src;
    dst[i * 2] := 0;
  }

  // ----- parsing

  /** c |= 0x20 */
  function Lower(c: byte): byte {
    if c / 32 % 2 == 1 then c else c + 32
  }

  /** The value of a digit, or None where the code uses 0x100. */
  function Digit(c: byte): (d: Option<byte>)
    ensures d.Some? ==> d.value < 16
  {
    var l := Lower(c);
    if 48 <= l <= 57 then Some(l - 48) else if 97 <= l <= 102 then Some(l - 97 + 10) else None
  }

  /** Setting bit 5 also turns the control characters 0x10 to 0x19 into digits. */
  predicate Accepted(c: byte) {
    0x10 <= c <= 0x19 || 0x30 <= c <= 0x39 || 0x41 <= c <= 0x46 || 0x61 <= c <= 0x66
  }

  lemma DigitIff(c: byte)
    ensures Digit(c).Some? <==> Accepted(c)
    ensures Accepted(c) ==> Digit(c).value == c % 16 + if c < 0x40 then 0 else 9
  {
  }

  /** The characters that parsing looks at: up to the NUL, without the spaces. */
  function Compact(src: seq<byte>): seq<byte> {
    if src == [] || src[0] == 0 then []
    else (if src[0] == SPACE then [] else [src[0]]) + Compact(src[1..])
  }

  lemma {:induction false} CompactAfter(a: seq<byte>, later: seq<byte>)
    requires 0 !in a && 0x20 !in a
    ensures Compact(a + later) == a + Compact(later)
  {
    if a == [] {
      assert [] + later == later;
    } else {
      CompactAfter(a[1..], later);
      assert a + later == [a[0]] + (a[1..] + later);
      CompactOne(a[0], a[1..] + later);
    }
  }

  /** A space is skipped, a NUL ends the text, and nothing else is lost. */
  lemma CompactIs(a: seq<byte>, b: seq<byte>)
    requires 0 !in a && 0x20 !in a
    ensures Compact(a) == a
    ensures Compact(a + ([0x20] + b)) == a + Compact(b)
    ensures Compact(a + ([0] + b)) == a
  {
    CompactAfter(a, []);
    CompactAfter(a, [0x20] + b);
    CompactAfter(a, [0] + b);
    assert a + [] == a;
    assert Compact([0x20] + b) == Compact(b) by { assert ([0x20 as byte] + b)[1..] == b; }
  }

  /** (a1 << 4) | b1 */
  function Value(hi: byte, lo: byte): byte
    requires hi < 16 && lo < 16
  {
    16 * hi + lo
  }

  /** The return value and the bytes stored so far. */
  datatype Parsed = Parsed(code: int, bytes: seq<byte>)

  /** At most max pairs of digits; -1 for an odd end, -2 for anything that is not a digit. */
  function ParsePairs(t: seq<byte>, max: nat): Parsed
    decreases |t|
  {
    if max == 0 || t == [] then Parsed(0, [])
    else if |t| == 1 then Parsed(-1, [])
    else if Digit(t[0]).None? || Digit(t[1]).None? then Parsed(-2, [])
    else
      var more := ParsePairs(t[2..], max - 1);
      Parsed(if more.code < 0 then more.code else more.code + 1,
             [Value(Digit(t[0]).value, Digit(t[1]).value)] + more.bytes)
  }

  /** Skipping spaces: the next character and the position behind it; 0 at the end of the text. */
  method NextChar(src: seq<byte>, p: nat) returns (c: byte, q: nat)
    requires p <= |src|
    ensures p <= q <= |src| && c != SPACE
    ensures c == 0 <==> Compact(src[p..]) == []
    ensures c != 0 ==> p < q && Compact(src[p..]) == [c] + Compact(src[q..])
  {
    q := p;
    while q < |src| && src[q] == SPACE
      invariant p <= q <= |src| && Compact(src[q..]) == Compact(src[p..])
    {
      assert src[q..][1..] == src[q + 1..];
      q := q + 1;
    }
    if q == |src| {
      c := 0;
    } else {
      c := src[q];
      assert src[q..][1..] == src[q + 1..];
      q := q + 1;
    }
  }

  /** The next two characters: no more, only one, not two digits, or a byte and the position behind it. */
  datatype Pair = End | Odd | Bad | Byte(v: byte, q: nat)

  method NextPair(src: seq<byte>, p: nat) returns (r: Pair)
    requires p <= |src|
    ensures var t := Compact(src[p..]);
            match r
            case End => t == []
            case Odd => |t| == 1
            case Bad => |t| >= 2 && (Digit(t[0]).None? || Digit(t[1]).None?)
            case Byte(v, q) => |t| >= 2 && Digit(t[0]).Some? && Digit(t[1]).Some?
                               && v == Value(Digit(t[0]).value, Digit(t[1]).value)
                               && q <= |src| && t[2..] == Compact(src[q..])
  {
    var a, p1 := NextChar(src, p);
    if a == 0 {
      return End;
    }
    var b, p2 := NextChar(src, p1);
    if b == 0 {
      assert Compact(src[p..]) == [a];
      return Odd;
    }
    assert Compact(src[p..]) == [a, b] + Compact(src[p2..]);
    var hi, lo := Digit(a), Digit(b);
    if hi == None || lo == None {
      return Bad;
    }
    return Byte(Value(hi.value, lo.value), p2);
  }

  /** all is what was stored so far followed by the outcome of the rest. */
  ghost predicate Rest(all: Parsed, stored: seq<byte>, more: Parsed) {
    all == Parsed(if more.code < 0 then more.code else more.code + |stored|, stored + more.bytes)
  }

  lemma RestStep(all: Parsed, stored: seq<byte>, t: seq<byte>, left: nat)
    requires |t| >= 2 && Rest(all, stored, ParsePairs(t, left + 1))
    ensures if Digit(t[0]).None? || Digit(t[1]).None? then all == Parsed(-2, stored)
            else Rest(all, stored + [Value(Digit(t[0]).value, Digit(t[1]).value)], ParsePairs(t[2..], left))
  {
    if Digit(t[0]).Some? && Digit(t[1]).Some? {
      var v := Value(Digit(t[0]).value, Digit(t[1]).value);
      var more := ParsePairs(t[2..], left);
      assert ParsePairs(t, left + 1) == Parsed(if more.code < 0 then more.code else more.code + 1, [v] + more.bytes);
      assert stored + ([v] + more.bytes) == stored + [v] + more.bytes;
    }
  }

  lemma RestEnds(all: Parsed, stored: seq<byte>, t: seq<byte>, left: nat)
    requires Rest(all, stored, ParsePairs(t, left)) && (left == 0 || |t| <= 1)
    ensures all == Parsed(if left > 0 && |t| == 1 then -1 else |stored|, stored)
  {
  }

  /** all is what was stored so far followed by the outcome of parsing from position p on. */
  ghost predicate Pending(all: Parsed, stored: seq<byte>, src: seq<byte>, p: nat, left: nat) {
    p <= |src| && Rest(all, stored, ParsePairs(Compact(src[p..]), left))
  }

  lemma StartPending(src: seq<byte>, max: nat)
    ensures Pending(ParsePairs(Compact(src), max), [], src, 0, max)
  {
    assert src[0..] == src;
    assert [] + ParsePairs(Compact(src), max).bytes == ParsePairs(Compact(src), max).bytes;
  }

  lemma EndPending(all: Parsed, stored: seq<byte>, src: seq<byte>, p: nat)
    requires Pending(all, stored, src, p, 0)
    ensures all == Parsed(|stored|, stored)
  {
    RestEnds(all, stored, Compact(src[p..]), 0);
  }

  /** The body of the loop, up to the store. */
  method NextByte(src: seq<byte>, p: nat, ghost all: Parsed, ghost stored: seq<byte>, ghost left: nat) returns (r: Pair)
    requires left > 0 && Pending(all, stored, src, p, left)
    ensures match r
            case End => all == Parsed(|stored|, stored)
            case Odd => all == Parsed(-1, stored)
            case Bad => all == Parsed(-2, stored)
            case Byte(v, q) => Pending(all, stored + [v], src, q, left - 1)
  {
    ghost var t := Compact(src[p..]);
    r := NextPair(src, p);
    if r == End || r == Odd { RestEnds(all, stored, t, left); } else { RestStep(all, stored, t, left - 1); }
  }

  method ParseLoop(dst: array<byte>, src: seq<byte>, max: nat, ghost all: Parsed)
    returns (code: int, ghost stored: seq<byte>)
    requires max <= dst.Length && Pending(all, [], src, 0, max)
    modifies dst
    ensures Parsed(code, stored) == all
    ensures |stored| <= max && dst[..|stored|] == stored
    ensures forall k :: |stored| <= k < dst.Length ==> dst[k] == old(dst[k])
  {
    var n := 0;
    var p := 0;
    stored := [];
    while n < max
      invariant n == |stored| <= max && dst[..n] == stored
      invariant forall k :: n <= k < dst.Length ==> dst[k] == old(dst[k])
      invariant 0 <= p && Pending(all, stored, src, p, max - n)
    {
      var pair := NextByte(src, p, all, stored, max - n);
      match pair
      case End => return n, stored;
      case Odd => return -1, stored;
      case Bad => return -2, stored;
      case Byte(v, q) =>
        dst[n] := v;
        stored := stored + [v];
        n := n + 1;
        p := q;
    }
    EndPending(all, stored, src, p);
    code := n;
  }

  /** parse_hex on a NUL-terminated text. */
  method ParseHex(dst: array<byte>, src: seq<byte>, max: nat) returns (code: int, ghost stored: seq<byte>)
    requires max <= dst.Length
    modifies dst
    ensures Parsed(code, stored) == ParsePairs(Compact(src), max)
    ensures |stored| <= max && dst[..|stored|] == stored
    ensures forall k :: |stored| <= k < dst.Length ==> dst[k] == old(dst[k])
  {
    StartPending(src, max);
    code, stored := ParseLoop(dst, src, max, ParsePairs(Compact(src), max));
  }

  // ----- which texts are rejected

  /** The number of pairs that the parser looks at. */
  function Pairs(t: seq<byte>, max: nat): nat {
    if |t| / 2 < max then |t| / 2 else max
  }

  /** The parser fails with -2 exactly on a character in one of these pairs that is not accepted. */
  lemma {:induction false} BadIff(t: seq<byte>, max: nat)
    ensures ParsePairs(t, max).code == -2 <==> exists i :: 0 <= i < 2 * Pairs(t, max) && !Accepted(t[i])
    decreases max
  {
    if max > 0 && |t| >= 2 {
      BadIff(t[2..], max - 1);
      CodeRange(t[2..], max - 1);
      DigitIff(t[0]);
      DigitIff(t[1]);
      if i :| 0 <= i < 2 * Pairs(t[2..], max - 1) && !Accepted(t[2..][i]) { assert !Accepted(t[i + 2]); }
      if i :| 2 <= i < 2 * Pairs(t, max) && !Accepted(t[i]) { assert !Accepted(t[2..][i - 2]); }
    }
  }

  /** It fails with -1 exactly when all of them are accepted and a single character is left within the limit. */
  lemma {:induction false} OddIff(t: seq<byte>, max: nat)
    ensures ParsePairs(t, max).code == -1 <==>
            |t| % 2 == 1 && |t| / 2 < max && forall i :: 0 <= i < 2 * Pairs(t, max) ==> Accepted(t[i])
    decreases max
  {
    if max > 0 && |t| >= 2 {
      OddIff(t[2..], max - 1);
      CodeRange(t[2..], max - 1);
      DigitIff(t[0]);
      DigitIff(t[1]);
      assert forall i :: 0 <= i < 2 * Pairs(t[2..], max - 1) ==> t[2..][i] == t[i + 2];
      assert forall i :: 2 <= i < 2 * Pairs(t, max) ==> t[i] == t[2..][i - 2];
    }
  }

  lemma {:induction false} CodeRange(t: seq<byte>, max: nat)
    ensures -2 <= ParsePairs(t, max).code <= max
    decreases max
  {
    if max > 0 && |t| >= 2 { CodeRange(t[2..], max - 1); }
  }

  // ----- printing and parsing

  lemma DigitOfHex(d: nat)
    requires d < 16
    ensures Digit(HEX[d]) == Some(d) && HEX[d] != 0 && HEX[d] != SPACE
  {
  }

  lemma CompactOne(c: byte, later: seq<byte>)
    requires c != 0 && c != SPACE
    ensures Compact([c] + later) == [c] + Compact(later)
  {
    assert ([c] + later)[1..] == later;
  }

  /** The two digits of a byte survive compaction and have its value. */
  lemma TwoDigits(x: byte, later: seq<byte>)
    ensures var hi, lo := HEX[x / 16], HEX[x % 16];
            && Compact([hi, lo] + later) == [hi, lo] + Compact(later)
            && Digit(hi).Some? && Digit(lo).Some? && Value(Digit(hi).value, Digit(lo).value) == x
  {
    var hi, lo := HEX[x / 16], HEX[x % 16];
    DigitOfHex(x / 16);
    DigitOfHex(x % 16);
    CompactOne(lo, later);
    CompactOne(hi, [lo] + later);
    assert [hi] + ([lo] + later) == [hi, lo] + later;
    assert [hi] + ([lo] + Compact(later)) == [hi, lo] + Compact(later);
  }

  lemma ParseTwo(hi: byte, lo: byte, t: seq<byte>, max: nat)
    requires Digit(hi).Some? && Digit(lo).Some?
    ensures var more := ParsePairs(t, max);
            ParsePairs([hi, lo] + t, max + 1)
            == Parsed(if more.code < 0 then more.code else more.code + 1,
                      [Value(Digit(hi).value, Digit(lo).value)] + more.bytes)
  {
    assert ([hi, lo] + t)[2..] == t;
  }

  /** Parsing the printed form gives back the bytes, whatever follows. */
  lemma {:induction false} HexRoundTrip(v: seq<byte>, later: seq<byte>)
    ensures ParsePairs(Compact(HexOf(v) + later), |v|) == Parsed(|v|, v)
    decreases |v|
  {
    if v != [] {
      var hi, lo := HEX[v[0] / 16], HEX[v[0] % 16];
      var tail := HexOf(v[1..]) + later;
      assert HexOf(v) + later == [hi, lo] + tail;
      TwoDigits(v[0], tail);
      ParseTwo(hi, lo, Compact(tail), |v| - 1);
      HexRoundTrip(v[1..], later);
      assert [v[0]] + v[1..] == v;
    }
  }

  /** Only the values of the digits matter. */
  lemma {:induction false} DigitsDecide(t: seq<byte>, u: seq<byte>, max: nat)
    requires |t| == |u| && forall i :: 0 <= i < |t| ==> Digit(t[i]) == Digit(u[i])
    ensures ParsePairs(t, max) == ParsePairs(u, max)
    decreases max
  {
    if max > 0 && |t| >= 2 {
      DigitsDecide(t[2..], u[2..], max - 1);
    }
  }

  /** One text is the other with its letters A to F in lower case. */
  ghost predicate Lowered(upper: seq<byte>, lower: seq<byte>) {
    && |lower| == |upper|
    && forall i :: 0 <= i < |upper| ==> lower[i] == if 65 <= upper[i] <= 70 then upper[i] + 32 else upper[i]
  }

  lemma {:induction false} CompactLetters(src: seq<byte>, lower: seq<byte>)
    requires Lowered(src, lower)
    ensures Lowered(Compact(src), Compact(lower))
    decreases |src|
  {
    if src != [] && src[0] != 0 {
      CompactLetters(src[1..], lower[1..]);
    }
  }

  /** The case of the letters in a text does not matter. */
  lemma CaseDoesNotMatter(src: seq<byte>, lower: seq<byte>, max: nat)
    requires |lower| == |src|
    requires forall i :: 0 <= i < |src| ==> lower[i] == if 65 <= src[i] <= 70 then src[i] + 32 else src[i]
    ensures ParsePairs(Compact(lower), max) == ParsePairs(Compact(src), max)
  {
    var t, u := Compact(src), Compact(lower);
    CompactLetters(src, lower);
    forall i | 0 <= i < |t| ensures Digit(t[i]) == Digit(u[i]) {
      LowerLetterDigit(t[i]);
    }
    DigitsDecide(t, u, max);
  }

  lemma LowerLetterDigit(c: byte)
    ensures 65 <= c <= 70 ==> Digit(c + 32) == Digit(c)
  {
  }

  /** Spaces do not matter: removing them first changes nothing. */
  lemma {:induction false} SpacesDoNotMatter(src: seq<byte>)
    ensures Compact(Compact(src)) == Compact(src)
  {
    if src != [] && src[0] != 0 {
      SpacesDoNotMatter(src[1..]);
      if src[0] != SPACE {
        CompactOne(src[0], Compact(src[1..]));
      } else {
        assert [] + Compact(src[1..]) == Compact(src[1..]);
      }
    }
  }

  // ----- the database file

  const LINE := 2 * DIM + 1

  /** One printed vector per line. */
  function FileOf(vs: seq<Vec>): (f: seq<byte>)
    ensures |f| == LINE * |vs|
  {
    if vs == [] then [] else HexOf(vs[0]) + [10 as byte] + FileOf(vs[1..])
  }

  /** Line i of the file is vector i. */
  predicate HasLine(vs: seq<Vec>, file: seq<byte>, i: nat)
    requires i < |vs|
  {
    LINE * i <= |file| && HexOf(vs[i]) <= file[LINE * i..]
  }

  lemma {:induction false} FileFrom(vs: seq<Vec>, i: nat)
    requires i < |vs|
    ensures HasLine(vs, FileOf(vs), i)
  {
    var f := FileOf(vs);
    if i == 0 {
      assert f[0..] == f;
    } else {
      FileFrom(vs[1..], i - 1);
      assert f[LINE..] == FileOf(vs[1..]);
      assert f[LINE * i..] == f[LINE..][LINE * (i - 1)..];
    }
  }

  /** What a cleared record holds after parsing line i of the file into it. */
  function Record(file: seq<byte>, i: nat): Vec
    requires LINE * i <= |file|
  {
    var bytes := ParsePairs(Compact(file[LINE * i..]), DIM).bytes;
    PairsBound(Compact(file[LINE * i..]), DIM);
    bytes + seq(DIM - |bytes|, _ => 0)
  }

  lemma {:induction false} PairsBound(t: seq<byte>, max: nat)
    ensures |ParsePairs(t, max).bytes| <= max
    decreases max
  {
    if max > 0 && |t| >= 2 {
      PairsBound(t[2..], max - 1);
    }
  }

  method LoadRecord(file: seq<byte>, item: nat) returns (hash: Vec)
    requires LINE * item <= |file|
    ensures hash == Record(file, item)
  {
    var record := new byte[DIM](_ => 0);
    var code, stored := ParseHex(record, file[LINE * item..], DIM);
    hash := record[..];
    assert hash == stored + seq(DIM - |stored|, _ => 0);
  }

  /** mmdist_load: None for a file that is not a whole number of lines (EMSGSIZE). */
  method Load(file: seq<byte>) returns (hashes: Option<seq<Vec>>)
    ensures hashes.None? <==> |file| % 289 != 0
    ensures hashes.Some? ==> |hashes.value| == |file| / 289
                             && forall i :: 0 <= i < |hashes.value| ==> hashes.value[i] == Record(file, i)
  {
    if |file| % LINE != 0 {
      return None;
    }
    var items := |file| / LINE;
    var loaded: seq<Vec> := [];
    for item := 0 to items
      invariant |loaded| == item
      invariant forall i :: 0 <= i < item ==> loaded[i] == Record(file, i)
    {
      var hash := LoadRecord(file, item);
      loaded := loaded + [hash];
    }
    hashes := Some(loaded);
  }

  lemma LineCount(n: nat)
    ensures LINE * n % LINE == 0 && LINE * n / LINE == n
  {
    ModUnique(LINE * n, LINE, n, 0);
  }

  lemma RecordOfLine(file: seq<byte>, i: nat, v: Vec)
    requires LINE * i <= |file| && HexOf(v) <= file[LINE * i..]
    ensures Record(file, i) == v
  {
    var line := file[LINE * i..];
    var later := line[2 * DIM..];
    assert line == HexOf(v) + later;
    HexRoundTrip(v, later);
  }

  lemma LinesLoad(vs: seq<Vec>, file: seq<byte>)
    requires forall i :: 0 <= i < |vs| ==> HasLine(vs, file, i)
    ensures forall i :: 0 <= i < |vs| ==> LINE * i <= |file| && Record(file, i) == vs[i]
  {
    forall i | 0 <= i < |vs| ensures LINE * i <= |file| && Record(file, i) == vs[i] {
      assert HasLine(vs, file, i);
      RecordOfLine(file, i, vs[i]);
    }
  }

  /** Loading the file that generate.c would print gives back the vectors and their number. */
  lemma LoadRoundTrip(vs: seq<Vec>)
    ensures |FileOf(vs)| == 289 * |vs| && |FileOf(vs)| % 289 == 0 && |FileOf(vs)| / 289 == |vs|
    ensures forall i :: 0 <= i < |vs| ==> FileOf(vs)[289 * i + 288] == 10
    ensures forall i :: 0 <= i < |vs| ==> Record(FileOf(vs), i) == vs[i]
  {
    LineCount(|vs|);
    forall i | 0 <= i < |vs| ensures HasLine(vs, FileOf(vs), i) { FileFrom(vs, i); }
    forall i | 0 <= i < |vs| ensures FileOf(vs)[289 * i + 288] == 10 { LineEnds(vs, i); }
    LinesLoad(vs, FileOf(vs));
  }

  lemma {:induction false} LineEnds(vs: seq<Vec>, i: nat)
    requires i < |vs|
    ensures FileOf(vs)[289 * i + 288] == 10
    decreases i
  {
    if i > 0 {
      LineEnds(vs[1..], i - 1);
      assert FileOf(vs)[289..] == FileOf(vs[1..]);
    }
  }
}
