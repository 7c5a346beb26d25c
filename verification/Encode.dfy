/** encodeBinary: one bit a pixel, columns from right to left and top to bottom within a column. */
module Encode {
  import opened Basics
  import opened Arith
  import opened Bits

  /** Bit s of a packed image, the most significant bit of a byte first. */
  predicate BitAt(out: seq<nat>, s: nat)
    requires s < 8 * |out|
  {
    BitOf(out[s / 8], 7 - s % 8)
  }

  /** Where the bit of the pixel in column x and row y goes. */
  function BitIndex(width: nat, height: nat, x: nat, y: nat): (s: int)
    requires x < width && y < height
  {
    (width - 1 - x) * height + y
  }

  /** No two pixels share a bit, and the bits of an image are numbered without a gap. */
  lemma BitIndexIsExact(width: nat, height: nat, s: nat)
    requires s < width * height
    ensures height > 0 && s / height < width
    ensures forall x: nat, y: nat | x < width && y < height ::
              BitIndex(width, height, x, y) == s <==> x == width - 1 - s / height && y == s % height
  {
    assert height > 0;
    QuotientBelow(s, width, height);
    var q, r := s / height, s % height;
    forall x: nat, y: nat | x < width && y < height
      ensures BitIndex(width, height, x, y) == s <==> x == width - 1 - q && y == r
    {
      if BitIndex(width, height, x, y) == s {
        ModUnique(s, height, width - 1 - x, y);
      }
    }
  }

  lemma CellInRange(n: nat, rows: nat, row: nat, col: nat)
    requires row < rows && col < n
    ensures 0 <= row * n + col < rows * n
  {
    MulNonNegative(row, n);
    MulNonNegative(rows - 1 - row, n);
    assert (rows - 1 - row) * n == rows * n - n - row * n;
  }

  lemma BitIndexInRange(width: nat, height: nat, x: nat, y: nat)
    requires x < width && y < height
    ensures 0 <= BitIndex(width, height, x, y) < width * height
    ensures 0 <= y * width + x < width * height
  {
    CellInRange(height, width, width - 1 - x, y);
    CellInRange(width, height, y, x);
  }

  /** Bits below s are those of the image, the others are clear. */
  ghost predicate EncodedTo(raw: seq<byte>, out: seq<nat>, width: nat, height: nat, s: nat)
    requires |raw| == width * height
  {
    && (forall x: nat, y: nat | x < width && y < height :: PixelDone(raw, out, width, height, s, x, y))
    && (forall i: nat | s <= i < 8 * |out| :: !BitAt(out, i))
  }

  ghost predicate PixelDone(raw: seq<byte>, out: seq<nat>, width: nat, height: nat, s: nat, x: nat, y: nat)
    requires |raw| == width * height && x < width && y < height
  {
    BitIndexInRange(width, height, x, y);
    var i := BitIndex(width, height, x, y);
    i < s && i < 8 * |out| ==> (BitAt(out, i) <==> raw[y * width + x] != 0)
  }

  /** out[s / 8] |= bit, which does nothing past the end of out. */
  method OrBit(out: array<nat>, s: nat, on: bool)
    modifies out
    ensures forall i: nat | i < 8 * out.Length :: BitAt(out[..], i) <==> BitAt(old(out[..]), i) || (on && i == s)
  {
    if s / 8 < out.Length {
      ghost var was := out[..];
      out[s / 8] := BitOr(out[s / 8], if on then Pow2(7 - s % 8) else 0);
      forall i: nat | i < 8 * out.Length
        ensures BitAt(out[..], i) <==> BitAt(was, i) || (on && i == s)
      {
        if i / 8 == s / 8 && on { OrSetsBit(was[s / 8], 7 - s % 8, 7 - i % 8); }
      }
    }
  }

  lemma OneMoreBit(raw: seq<byte>, before: seq<nat>, out: seq<nat>, width: nat, height: nat, x: nat, y: nat)
    requires |raw| == width * height && |before| == |out| && x < width && y < height
    requires 0 <= y * width + x < width * height && 0 <= BitIndex(width, height, x, y) < width * height
    requires EncodedTo(raw, before, width, height, BitIndex(width, height, x, y))
    requires forall i: nat | i < 8 * |out| ::
               BitAt(out, i) <==> BitAt(before, i) || (raw[y * width + x] != 0 && i == BitIndex(width, height, x, y))
    ensures EncodedTo(raw, out, width, height, BitIndex(width, height, x, y) + 1)
  {
    var s := BitIndex(width, height, x, y);
    BitIndexIsExact(width, height, s);
    var next := s + 1;
    forall i: nat, j: nat | i < width && j < height ensures PixelDone(raw, out, width, height, next, i, j) {
      assert PixelDone(raw, before, width, height, s, i, j);
      BitIndexInRange(width, height, i, j);
    }
  }

  method EncodePixel(raw: seq<byte>, out: array<nat>, width: nat, height: nat, x: nat, y: nat, s: nat)
    requires |raw| == width * height && x < width && y < height && s == BitIndex(width, height, x, y)
    requires EncodedTo(raw, out[..], width, height, s)
    modifies out
    ensures EncodedTo(raw, out[..], width, height, s + 1)
  {
    BitIndexInRange(width, height, x, y);
    ghost var before := out[..];
    OrBit(out, s, raw[y * width + x] != 0);
    OneMoreBit(raw, before, out[..], width, height, x, y);
  }

  method EncodeColumn(raw: seq<byte>, out: array<nat>, width: nat, height: nat, x: nat, s0: nat) returns (s: nat)
    requires |raw| == width * height && x < width && s0 == (width - 1 - x) * height
    requires EncodedTo(raw, out[..], width, height, s0)
    modifies out
    ensures s == s0 + height && EncodedTo(raw, out[..], width, height, s)
  {
    s := s0;
    var y := 0;
    while y < height
      invariant 0 <= y <= height && s == s0 + y
      invariant EncodedTo(raw, out[..], width, height, s)
    {
      EncodePixel(raw, out, width, height, x, y, s);
      s := s + 1;
      y := y + 1;
    }
  }

  lemma NothingEncoded(raw: seq<byte>, out: seq<nat>, width: nat, height: nat)
    requires |raw| == width * height && forall k :: 0 <= k < |out| ==> out[k] == 0
    ensures EncodedTo(raw, out, width, height, 0)
  {
    forall i: nat | i < 8 * |out| ensures !BitAt(out, i) { ZeroHasNoBits(7 - i % 8); }
    forall x: nat, y: nat | x < width && y < height ensures PixelDone(raw, out, width, height, 0, x, y) {
      BitIndexInRange(width, height, x, y);
    }
  }

  /** Each pixel with a bit in out sets it exactly when it is not 0. */
  method EncodeBinary(raw: seq<byte>, width: nat, height: nat) returns (result: seq<nat>)
    requires |raw| == width * height
    ensures |result| == |raw| / 8
    ensures EncodedTo(raw, result, width, height, width * height)
  {
    var out := new nat[|raw| / 8](_ => 0);
    NothingEncoded(raw, out[..], width, height);
    var s := 0;
    var x := width - 1;
    while x >= 0
      invariant -1 <= x < width
      invariant s == (width - 1 - x) * height
      invariant EncodedTo(raw, out[..], width, height, s)
    {
      s := EncodeColumn(raw, out, width, height, x, s);
      assert (width - 1 - x) * height + height == (width - 1 - (x - 1)) * height;
      x := x - 1;
    }
    result := out[..];
  }

  /** The bit of a pixel, as a digit of its byte: columns from the right, rows from the top, top bit first. */
  lemma PixelBit(raw: seq<byte>, out: seq<nat>, width: nat, height: nat, x: nat, y: nat, s: nat)
    requires |raw| == width * height && EncodedTo(raw, out, width, height, width * height)
    requires x < width && y < height && s == (width - 1 - x) * height + y && s < 8 * |out|
    ensures 0 <= y * width + x < |raw|
    ensures out[s / 8] / Pow2(7 - s % 8) % 2 == 1 <==> raw[y * width + x] != 0
  {
    BitIndexInRange(width, height, x, y);
    assert PixelDone(raw, out, width, height, width * height, x, y);
    BitIs(out[s / 8], 7 - s % 8);
  }

  /** When the image fills whole bytes no pixel is lost: the packed image determines which pixels are black. */
  lemma PackedImageIsExact(a: seq<byte>, b: seq<byte>, out: seq<nat>, width: nat, height: nat)
    requires |a| == |b| == width * height && 8 * |out| == width * height
    requires EncodedTo(a, out, width, height, width * height) && EncodedTo(b, out, width, height, width * height)
    ensures forall i :: 0 <= i < |a| ==> (a[i] == 0 <==> b[i] == 0)
  {
    forall i | 0 <= i < |a| ensures a[i] == 0 <==> b[i] == 0 {
      assert width > 0;
      QuotientBelow(i, height, width);
      var y, x := i / width, i % width;
      BitIndexInRange(width, height, x, y);
      assert PixelDone(a, out, width, height, width * height, x, y);
      assert PixelDone(b, out, width, height, width * height, x, y);
    }
  }
}
