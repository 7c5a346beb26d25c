/**
 Floyd-Steinberg dithering to two levels, in place on the pixels of an image stored row after
 row, in exact arithmetic.
 */
module Dither {
  import opened Basics
  import opened Arith

  // ----- one pixel

  /** A write outside a typed array has no effect. */
  function AddAt(px: seq<real>, j: int, d: real): (r: seq<real>)
    ensures |r| == |px|
  {
    if 0 <= j < |px| then px[j := px[j] + d] else px
  }

  function Level(old_: real): real {
    if old_ > 128.0 then 255.0 else 0.0
  }

  /** The quantisation error of pixel i. */
  function Error(px: seq<real>, i: nat): real
    requires i < |px|
  {
    px[i] - Level(px[i])
  }

  /** The sixteenths of its error that pixel k adds to pixel j. */
  function Share(w: nat, k: nat, j: nat): nat {
    (if j == k + 1 then 7 else 0) + (if j == k + w - 1 then 3 else 0) + (if j == k + w then 5 else 0)
    + (if j == k + w + 1 then 1 else 0)
  }

  /** Pixel j when pixel i is quantised. */
  function Receives(px: seq<real>, w: nat, i: nat, j: nat): real
    requires i < |px| && j < |px|
  {
    (if j == i then Level(px[i]) else px[j]) + Error(px, i) / 16.0 * Share(w, i, j) as real
  }

  /** Quantise pixel i and spread its error over its neighbours. */
  function Spread(px: seq<real>, w: nat, i: nat): (r: seq<real>)
    requires i < |px|
    ensures |r| == |px|
  {
    seq(|px|, j requires 0 <= j < |px| => Receives(px, w, i, j))
  }

  /** Four additions to pixels, one after the other. */
  function FourAdds(px: seq<real>, q: real, a: int, b: int, c: int, d: int): (r: seq<real>)
    ensures |r| == |px|
  {
    AddAt(AddAt(AddAt(AddAt(px, a, q * 7.0), b, q * 3.0), c, q * 5.0), d, q * 1.0)
  }

  lemma FourAddsAt(px: seq<real>, q: real, a: int, b: int, c: int, d: int, j: nat)
    requires j < |px|
    ensures FourAdds(px, q, a, b, c, d)[j]
            == px[j] + (if a == j then q * 7.0 else 0.0) + (if b == j then q * 3.0 else 0.0)
               + (if c == j then q * 5.0 else 0.0) + (if d == j then q * 1.0 else 0.0)
  {
  }

  lemma ShareOf(q: real, w: nat, i: nat, j: nat)
    ensures q * Share(w, i, j) as real
            == (if i + 1 == j then q * 7.0 else 0.0) + (if i + w - 1 == j then q * 3.0 else 0.0)
               + (if i + w == j then q * 5.0 else 0.0) + (if i + w + 1 == j then q * 1.0 else 0.0)
  {
  }

  /**
   The additions of the code, of which those outside the image have no effect and two of which may
   meet in one pixel, give every pixel its share.
   */
  lemma AddsAreSpread(px: seq<real>, w: nat, i: nat)
    requires i < |px|
    ensures FourAdds(px[i := Level(px[i])], Error(px, i) / 16.0, i + 1, i + w - 1, i + w, i + w + 1) == Spread(px, w, i)
  {
    var p0, q := px[i := Level(px[i])], Error(px, i) / 16.0;
    forall j | 0 <= j < |px| ensures FourAdds(p0, q, i + 1, i + w - 1, i + w, i + w + 1)[j] == Receives(px, w, i, j) {
      FourAddsAt(p0, q, i + 1, i + w - 1, i + w, i + w + 1, j);
      ShareOf(q, w, i, j);
    }
  }

  /** The image after its first k pixels have been handled. */
  function DitherTo(px: seq<real>, w: nat, k: nat): (r: seq<real>)
    requires k <= |px|
    ensures |r| == |px|
  {
    if k == 0 then px else Spread(DitherTo(px, w, k - 1), w, k - 1)
  }

  lemma DitherStep(px: seq<real>, w: nat, k: nat)
    requires k < |px|
    ensures DitherTo(px, w, k + 1) == Spread(DitherTo(px, w, k), w, k)
  {
  }

  // ----- errors stay bounded

  /** The sixteenths that pixel j has received from the pixels before k. */
  function Received(w: nat, j: nat, k: nat): nat {
    (if 0 <= j - 1 < k then 7 else 0) + (if 0 <= j - w + 1 < k then 3 else 0)
    + (if 0 <= j - w < k then 5 else 0) + (if 0 <= j - w - 1 < k then 1 else 0)
  }

  /** A pixel to come differs from its original by errors in [-127, 128], at most sixteen sixteenths of them. */
  ghost predicate Near(original: real, now: real, received: nat) {
    original - 127.0 * received as real / 16.0 <= now <= original + 128.0 * received as real / 16.0
  }

  ghost predicate IsImage(px: seq<real>) {
    forall j :: 0 <= j < |px| ==> 0.0 <= px[j] <= 255.0
  }

  /** The pixels before k are final, those from k on are near their originals. */
  ghost predicate Bounded(original: seq<real>, px: seq<real>, w: nat, k: nat) {
    && |px| == |original|
    && (forall j :: 0 <= j < k && j < |px| ==> px[j] == 0.0 || px[j] == 255.0)
    && (forall j :: k <= j < |px| ==> Near(original[j], px[j], Received(w, j, k)))
  }

  lemma ErrorBound(original: seq<real>, px: seq<real>, w: nat, k: nat)
    requires IsImage(original) && Bounded(original, px, w, k) && k < |px|
    ensures -127.0 <= Error(px, k) <= 128.0
  {
    assert Near(original[k], px[k], Received(w, k, k));
    var r := Received(w, k, k) as real;
    assert 0.0 <= r <= 16.0;
    assert 127.0 * r / 16.0 <= 127.0 && 128.0 * r / 16.0 <= 128.0;
  }

  /**
   With two columns or more the pixels before k stay, pixel k becomes white exactly above 128 and
   black otherwise, and the later ones gain 7, 3, 5 and 1 sixteenths of the error; with two columns
   the right neighbour is also the one below to the left.
   */
  lemma SpreadAt(px: seq<real>, w: nat, k: nat, j: nat)
    requires k < |px| && j < |px| && w >= 2
    ensures j < k ==> Spread(px, w, k)[j] == px[j]
    ensures j == k ==> Spread(px, w, k)[j] == if px[k] > 128.0 then 255.0 else 0.0
    ensures j > k ==> var error := if px[k] > 128.0 then px[k] - 255.0 else px[k];
                      Spread(px, w, k)[j]
                      == px[j] + (if j == k + 1 then 7.0 * error / 16.0 else 0.0)
                         + (if j == k + w - 1 then 3.0 * error / 16.0 else 0.0)
                         + (if j == k + w then 5.0 * error / 16.0 else 0.0)
                         + (if j == k + w + 1 then error / 16.0 else 0.0)
  {
    ShareOf(Error(px, k) / 16.0, w, k, j);
  }

  lemma ShareBound(e: real, share: real)
    requires -127.0 <= e <= 128.0 && share >= 0.0
    ensures -127.0 * share / 16.0 <= e / 16.0 * share <= 128.0 * share / 16.0
  {
    assert (e / 16.0 + 127.0 / 16.0) * share >= 0.0;
    assert (128.0 / 16.0 - e / 16.0) * share >= 0.0;
  }

  lemma NearAfter(original: real, now: real, received: nat, share: nat, d: real)
    requires Near(original, now, received) && -127.0 * share as real / 16.0 <= d <= 128.0 * share as real / 16.0
    ensures Near(original, now + d, received + share)
  {
    assert (received + share) as real == received as real + share as real;
  }

  lemma ReceivedStep(w: nat, j: nat, k: nat)
    ensures Received(w, j, k + 1) == Received(w, j, k) + Share(w, k, j)
  {
  }

  lemma PixelStaysNear(original: real, px: seq<real>, w: nat, k: nat, j: nat)
    requires w >= 2 && k < j < |px| && -127.0 <= Error(px, k) <= 128.0
    requires Near(original, px[j], Received(w, j, k))
    ensures Near(original, Spread(px, w, k)[j], Received(w, j, k + 1))
  {
    var share, e, now := Share(w, k, j), Error(px, k), Spread(px, w, k)[j];
    var d := e / 16.0 * share as real;
    assert now == px[j] + d;
    ReceivedStep(w, j, k);
    ShareBound(e, share as real);
    NearAfter(original, px[j], Received(w, j, k), share, d);
  }

  lemma SpreadKeepsBounds(original: seq<real>, px: seq<real>, w: nat, k: nat)
    requires IsImage(original) && w >= 2 && k < |px| && Bounded(original, px, w, k)
    ensures Bounded(original, Spread(px, w, k), w, k + 1)
  {
    ErrorBound(original, px, w, k);
    var r := Spread(px, w, k);
    forall j | k + 1 <= j < |r| ensures Near(original[j], r[j], Received(w, j, k + 1)) {
      PixelStaysNear(original[j], px, w, k, j);
    }
    forall j | 0 <= j < k + 1 ensures r[j] == 0.0 || r[j] == 255.0 {
      SpreadAt(px, w, k, j);
    }
  }

  lemma StartIsBounded(original: seq<real>, w: nat)
    requires w >= 2
    ensures Bounded(original, original, w, 0)
  {
    forall j | 0 <= j < |original| ensures Near(original[j], original[j], Received(w, j, 0)) {
      assert Received(w, j, 0) == 0;
    }
  }

  lemma BoundedOneMore(original: seq<real>, w: nat, k: nat)
    requires IsImage(original) && w >= 2 && k < |original| && Bounded(original, DitherTo(original, w, k), w, k)
    ensures Bounded(original, DitherTo(original, w, k + 1), w, k + 1)
  {
    DitherStep(original, w, k);
    SpreadKeepsBounds(original, DitherTo(original, w, k), w, k);
  }

  lemma {:induction false} DitherIsBounded(original: seq<real>, w: nat, k: nat)
    requires IsImage(original) && w >= 2 && k <= |original|
    ensures Bounded(original, DitherTo(original, w, k), w, k)
    decreases k
  {
    if k == 0 {
      StartIsBounded(original, w);
    } else {
      DitherIsBounded(original, w, k - 1);
      BoundedOneMore(original, w, k - 1);
    }
  }

  // ----- brightness

  /** The sum of the first n pixels. */
  ghost function SumTo(px: seq<real>, n: nat): real
    requires n <= |px|
  {
    if n == 0 then 0.0 else SumTo(px, n - 1) + px[n - 1]
  }

  ghost function Sum(px: seq<real>): real {
    SumTo(px, |px|)
  }

  lemma {:induction false} SumOfPrefix(px: seq<real>, x: real, n: nat)
    requires n <= |px|
    ensures SumTo(px + [x], n) == SumTo(px, n)
    decreases n
  {
    if n > 0 { SumOfPrefix(px, x, n - 1); }
  }

  lemma SumIs(px: seq<real>, x: real)
    ensures Sum([]) == 0.0 && Sum(px + [x]) == Sum(px) + x
  {
    SumOfPrefix(px, x, |px|);
  }

  /** The sixteenths of the error of pixel i that fall off an image of n pixels. */
  function Dropped(n: nat, w: nat, i: nat): nat {
    (if i + 1 >= n then 7 else 0) + (if i + w - 1 >= n then 3 else 0)
    + (if i + w >= n then 5 else 0) + (if i + w + 1 >= n then 1 else 0)
  }

  /** Their brightness, for an error of sixteen q. */
  function Loss(q: real, n: nat, w: nat, i: nat): real {
    (if i + 1 >= n then q * 7.0 else 0.0) + (if i + w - 1 >= n then q * 3.0 else 0.0)
    + (if i + w >= n then q * 5.0 else 0.0) + (if i + w + 1 >= n then q * 1.0 else 0.0)
  }

  lemma LossBound(q: real, n: nat, w: nat, i: nat)
    requires -8.0 <= q <= 8.0
    ensures -8.0 * Dropped(n, w, i) as real <= Loss(q, n, w, i) <= 8.0 * Dropped(n, w, i) as real
  {
  }

  /** The first n pixels lose the error of pixel i and gain the shares that land among them. */
  lemma {:induction false} SumOfSpread(px: seq<real>, w: nat, i: nat, q: real, n: nat)
    requires i < |px| && n <= |px| && q == Error(px, i) / 16.0 && w >= 1
    ensures SumTo(Spread(px, w, i), n) == SumTo(px, n) - (if i < n then q * 16.0 else 0.0)
              + (if i + 1 < n then q * 7.0 else 0.0) + (if i + w - 1 < n then q * 3.0 else 0.0)
              + (if i + w < n then q * 5.0 else 0.0) + (if i + w + 1 < n then q * 1.0 else 0.0)
    decreases n
  {
    if n > 0 {
      SumOfSpread(px, w, i, q, n - 1);
      ShareOf(q, w, i, n - 1);
    }
  }

  /** Diffusion moves brightness around: only what falls off the end of the image is lost. */
  lemma SpreadConserves(px: seq<real>, w: nat, i: nat)
    requires i < |px| && w >= 1
    ensures Sum(Spread(px, w, i)) == Sum(px) - Loss(Error(px, i) / 16.0, |px|, w, i)
  {
    SumOfSpread(px, w, i, Error(px, i) / 16.0, |px|);
  }

  /** How many of the first k pixels have no pixel c places on. */
  function Over(n: nat, k: nat, c: nat): nat {
    if k + c <= n then 0 else if c <= n then k + c - n else k
  }

  function DroppedTo(n: nat, w: nat, k: nat): nat
    requires w >= 1
  {
    7 * Over(n, k, 1) + 3 * Over(n, k, w - 1) + 5 * Over(n, k, w) + Over(n, k, w + 1)
  }

  lemma DroppedStep(n: nat, w: nat, k: nat)
    requires k < n && w >= 1
    ensures DroppedTo(n, w, k + 1) == DroppedTo(n, w, k) + Dropped(n, w, k)
  {
  }

  ghost predicate Within(a: real, b: real, sixteenths: nat) {
    b - 8.0 * sixteenths as real <= a <= b + 8.0 * sixteenths as real
  }

  lemma WithinAfter(now: real, original: real, before: nat, dropped: nat, d: real)
    requires Within(now, original, before) && -8.0 * dropped as real <= d <= 8.0 * dropped as real
    ensures Within(now - d, original, before + dropped)
  {
    assert (before + dropped) as real == before as real + dropped as real;
  }

  lemma SpreadKeepsBrightness(original: seq<real>, px: seq<real>, w: nat, k: nat)
    requires IsImage(original) && w >= 2 && k < |px| && Bounded(original, px, w, k)
    requires Within(Sum(px), Sum(original), DroppedTo(|px|, w, k))
    ensures Within(Sum(Spread(px, w, k)), Sum(original), DroppedTo(|px|, w, k + 1))
  {
    var n, q := |px|, Error(px, k) / 16.0;
    assert -8.0 <= q <= 8.0 by { ErrorBound(original, px, w, k); }
    assert Sum(Spread(px, w, k)) == Sum(px) - Loss(q, n, w, k) by { SpreadConserves(px, w, k); }
    DroppedStep(n, w, k);
    LossBound(q, n, w, k);
    WithinAfter(Sum(px), Sum(original), DroppedTo(n, w, k), Dropped(n, w, k), Loss(q, n, w, k));
  }

  lemma {:induction false} BrightnessSoFar(original: seq<real>, w: nat, k: nat)
    requires IsImage(original) && w >= 2 && k <= |original|
    ensures Within(Sum(DitherTo(original, w, k)), Sum(original), DroppedTo(|original|, w, k))
    decreases k
  {
    if k > 0 {
      BrightnessSoFar(original, w, k - 1);
      DitherIsBounded(original, w, k - 1);
      SpreadKeepsBrightness(original, DitherTo(original, w, k - 1), w, k - 1);
    }
  }

  ghost predicate TwoLevel(px: seq<real>) {
    forall j :: 0 <= j < |px| ==> px[j] == 0.0 || px[j] == 255.0
  }

  /** The whole image ends black and white, and as bright as it was up to a bound that does not depend on its height. */
  lemma BrightnessIsKept(original: seq<real>, w: nat)
    requires IsImage(original) && w >= 2
    ensures TwoLevel(DitherTo(original, w, |original|))
    ensures -(72 * w + 40) as real <= Sum(DitherTo(original, w, |original|)) - Sum(original) <= (72 * w + 40) as real
  {
    var n := |original|;
    DitherIsBounded(original, w, n);
    BrightnessSoFar(original, w, n);
    assert DroppedTo(n, w, n) <= 9 * w + 5;
    assert 8.0 * (9 * w + 5) as real == (72 * w + 40) as real;
  }

  // ----- an image one pixel wide

  /** Pixels already handled are final. */
  lemma SpreadKeepsEarlier(px: seq<real>, w: nat, i: nat, j: nat)
    requires w >= 1 && j < i < |px|
    ensures Spread(px, w, i)[j] == px[j]
  {
  }

  lemma HandledStays(original: seq<real>, w: nat, j: nat, k: nat)
    requires w >= 1 && j < k < |original|
    ensures DitherTo(original, w, k + 1)[j] == DitherTo(original, w, k)[j]
  {
    SpreadKeepsEarlier(DitherTo(original, w, k), w, k, j);
  }

  lemma {:induction false} HandledIsFinal(original: seq<real>, w: nat, j: nat, k: nat)
    requires w >= 1 && j < k <= |original|
    ensures DitherTo(original, w, k)[j] == DitherTo(original, w, j + 1)[j]
    decreases k
  {
    if k > j + 1 {
      HandledIsFinal(original, w, j, k - 1);
      HandledStays(original, w, j, k - 1);
    }
  }

  lemma SpreadOfTwoLevel(px: seq<real>, w: nat, i: nat)
    requires i < |px| && (px[i] == 0.0 || px[i] == 255.0)
    ensures Spread(px, w, i) == px
  {
    assert Error(px, i) == 0.0;
  }

  /** Black and white pixels make no error. */
  lemma {:induction false} TwoLevelIsKept(original: seq<real>, w: nat, k: nat)
    requires k <= |original| && TwoLevel(original[..k])
    ensures DitherTo(original, w, k) == original
    decreases k
  {
    if k > 0 {
      assert original[..k - 1] == original[..k][..k - 1];
      TwoLevelIsKept(original, w, k - 1);
      assert original[..k][k - 1] == original[k - 1];
      SpreadOfTwoLevel(original, w, k - 1);
    }
  }

  lemma FirstGrey(px: seq<real>) returns (g: nat)
    requires !TwoLevel(px)
    ensures g < |px| && TwoLevel(px[..g]) && px[g] != 0.0 && px[g] != 255.0
  {
    g := 0;
    while px[g] == 0.0 || px[g] == 255.0
      invariant g < |px| && TwoLevel(px[..g])
      decreases |px| - g
    {
      g := g + 1;
    }
  }

  lemma GreySurvives(px: seq<real>, g: nat)
    requires IsImage(px) && g < |px| && px[g] != 0.0 && px[g] != 255.0
    ensures Spread(px, 1, g)[g] != 0.0 && Spread(px, 1, g)[g] != 255.0
  {
    assert Spread(px, 1, g)[g] == Level(px[g]) + Error(px, g) / 16.0 * 3.0;
  }

  /** In one column the write down and to the left lands on the pixel just quantised: greys survive. */
  lemma TwoLevelIff(original: seq<real>, w: nat)
    requires IsImage(original) && w >= 1
    ensures TwoLevel(DitherTo(original, w, |original|)) <==> w >= 2 || TwoLevel(original)
  {
    var n := |original|;
    if w >= 2 {
      DitherIsBounded(original, w, n);
    } else if TwoLevel(original) {
      assert original[..n] == original;
      TwoLevelIsKept(original, w, n);
    } else {
      var g := FirstGrey(original);
      TwoLevelIsKept(original, w, g);
      HandledIsFinal(original, w, g, n);
      GreySurvives(original, g);
      assert DitherTo(original, w, g + 1) == Spread(original, w, g);
    }
  }

  // ----- the loops

  method Add(px: array<real>, j: int, d: real)
    modifies px
    ensures px[..] == AddAt(old(px[..]), j, d)
  {
    if 0 <= j < px.Length {
      px[j] := px[j] + d;
    }
  }

  /** The body of the inner loop. */
  method HandlePixel(px: array<real>, width: nat, y: nat, x: nat)
    requires 0 <= y * width + x < px.Length
    modifies px
    ensures px[..] == Spread(old(px[..]), width, y * width + x)
  {
    AddsAreSpread(px[..], width, y * width + x);
    var oldPixel := px[y * width + x];
    var newPixel := if oldPixel > 128.0 then 255.0 else 0.0;
    var quantError := (oldPixel - newPixel) / 16.0;
    assert (y + 1) * width == y * width + width;
    px[y * width + x] := newPixel;
    Add(px, y * width + (x + 1), quantError * 7.0);
    Add(px, (y + 1) * width + (x - 1), quantError * 3.0);
    Add(px, (y + 1) * width + x, quantError * 5.0);
    Add(px, (y + 1) * width + (x + 1), quantError * 1.0);
  }

  ghost predicate Reached(original: seq<real>, px: seq<real>, w: nat, k: int) {
    0 <= k <= |original| && px == DitherTo(original, w, k)
  }

  lemma ReachedStep(original: seq<real>, px: seq<real>, w: nat, k: int)
    requires Reached(original, px, w, k) && k < |original|
    ensures Reached(original, Spread(px, w, k), w, k + 1)
  {
  }

  method HandleNext(px: array<real>, width: nat, y: nat, x: nat, ghost original: seq<real>, ghost at: int)
    requires at == y * width + x && px.Length == |original| && 0 <= at < px.Length
    requires Reached(original, px[..], width, at)
    modifies px
    ensures Reached(original, px[..], width, at + 1)
  {
    ReachedStep(original, px[..], width, at);
    HandlePixel(px, width, y, x);
  }

  /** The inner loop: one row. */
  method DiffuseRow(px: array<real>, width: nat, y: nat, ghost original: seq<real>, ghost row: int)
    requires row == y * width && row + width <= px.Length == |original|
    requires Reached(original, px[..], width, row)
    modifies px
    ensures Reached(original, px[..], width, row + width)
  {
    var x := 0;
    ghost var at := row;
    while x < width
      invariant 0 <= x <= width && at == row + x
      invariant Reached(original, px[..], width, at)
    {
      HandleNext(px, width, y, x, original, at);
      x := x + 1;
      at := at + 1;
    }
  }

  lemma ReachedStart(original: seq<real>, w: nat)
    ensures Reached(original, original, w, 0)
  {
  }

  lemma RowInImage(width: nat, height: nat, y: nat)
    requires y < height
    ensures y * width + width == (y + 1) * width <= width * height
  {
    MulNonNegative(height - y - 1, width);
    assert (height - y - 1) * width == height * width - (y + 1) * width;
  }

  method Diffuse(px: array<real>, width: nat, height: nat)
    requires px.Length == width * height
    modifies px
    ensures Reached(old(px[..]), px[..], width, px.Length)
  {
    ghost var original := px[..];
    ReachedStart(original, width);
    var y := 0;
    ghost var row := 0;
    while y < height
      invariant 0 <= y <= height && row == y * width
      invariant Reached(original, px[..], width, row)
    {
      RowInImage(width, height, y);
      DiffuseRow(px, width, y, original, row);
      y := y + 1;
      row := row + width;
    }
    assert row == px.Length;
  }

  function Reals(raw: seq<byte>): (r: seq<real>)
    ensures |r| == |raw|
  {
    seq(|raw|, i requires 0 <= i < |raw| => raw[i] as real)
  }

  /** Conversion to a clamped byte: the nearest byte, ties to the even one. */
  function Clamped(v: real): byte {
    if v <= 0.0 then 0 else if v >= 255.0 then 255
    else
      var f := v.Floor;
      if v < f as real + 0.5 || (v == f as real + 0.5 && f % 2 == 0) then f else f + 1
  }

  ghost function Away(v: real, b: byte): real {
    if v < b as real then b as real - v else v - b as real
  }

  /** No byte is nearer, and of two that are equally near it is the even one. */
  lemma ClampedIsNearest(v: real, b: byte)
    ensures var c := Clamped(v);
            && Away(v, c) <= Away(v, b)
            && (Away(v, c) == Away(v, b) && b != c ==> c % 2 == 0)
  {
    if 0.0 < v < 255.0 {
      var f := v.Floor;
      assert f as real <= v < f as real + 1.0;
      assert b <= f || b >= f + 1;
    }
  }

  ghost function ByteSumTo(raw: seq<byte>, n: nat): nat
    requires n <= |raw|
  {
    if n == 0 then 0 else ByteSumTo(raw, n - 1) + raw[n - 1]
  }

  ghost function ByteSum(raw: seq<byte>): nat {
    ByteSumTo(raw, |raw|)
  }

  lemma {:induction false} ByteSumOfPrefix(raw: seq<byte>, x: byte, n: nat)
    requires n <= |raw|
    ensures ByteSumTo(raw + [x], n) == ByteSumTo(raw, n)
    decreases n
  {
    if n > 0 { ByteSumOfPrefix(raw, x, n - 1); }
  }

  lemma ByteSumIs(raw: seq<byte>, x: byte)
    ensures ByteSum([]) == 0 && ByteSum(raw + [x]) == ByteSum(raw) + x as int
  {
    ByteSumOfPrefix(raw, x, |raw|);
  }

  lemma {:induction false} SumOfReals(raw: seq<byte>, px: seq<real>, n: nat)
    requires |px| == |raw| && n <= |raw| && forall i :: 0 <= i < |raw| ==> px[i] == raw[i] as real
    ensures SumTo(px, n) == ByteSumTo(raw, n) as real
    decreases n
  {
    if n > 0 { SumOfReals(raw, px, n - 1); }
  }

  method DitherTwoBits(raw: seq<byte>, width: nat, height: nat) returns (out: seq<byte>)
    requires |raw| == width * height
    ensures |out| == |raw|
    ensures forall i :: 0 <= i < |raw| ==> out[i] == Clamped(DitherTo(Reals(raw), width, |raw|)[i])
    ensures width >= 2 ==> forall i :: 0 <= i < |raw| ==> out[i] == 0 || out[i] == 255
    ensures width >= 2 ==> -(72 * width + 40) <= ByteSum(out) - ByteSum(raw) <= 72 * width + 40
  {
    var px := new real[|raw|](i requires 0 <= i < |raw| => raw[i] as real);
    assert px[..] == Reals(raw);
    Diffuse(px, width, height);
    ghost var final := DitherTo(Reals(raw), width, |raw|);
    out := seq(px.Length, i requires 0 <= i < px.Length reads px => Clamped(px[i]));
    forall i | 0 <= i < |raw| ensures out[i] == Clamped(final[i]) {
      assert px[i] == px[..][i];
    }
    if width >= 2 { BytesAreBright(raw, out, final, width); }
  }

  lemma BytesAreBright(raw: seq<byte>, out: seq<byte>, final: seq<real>, w: nat)
    requires w >= 2 && final == DitherTo(Reals(raw), w, |raw|)
    requires |out| == |raw| && forall i :: 0 <= i < |raw| ==> out[i] == Clamped(final[i])
    ensures forall i :: 0 <= i < |raw| ==> out[i] == 0 || out[i] == 255
    ensures -(72 * w + 40) <= ByteSum(out) - ByteSum(raw) <= 72 * w + 40
  {
    BrightnessIsKept(Reals(raw), w);
    SumOfReals(raw, Reals(raw), |raw|);
    SumOfReals(out, final, |raw|);
  }
}
