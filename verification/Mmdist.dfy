/**
 The fast searches of mmdist: prefixes transposed into SIMD lanes, 16-bit saturating scores
 that filter candidates against a stale threshold, and full distances only for candidates.
 They return exactly what the plain scan returns below the threshold.
 */
module Mmdist {
  import opened Basics
  import opened Avx
  import opened Distances

  const BATCH_SIZE := 6
  const MIXER_SIZE := 24
  const LANE_SIZE := 16

  // ----- distance_avx2

  function Total(s: Sums): nat {
    s[0] + s[1] + s[2] + s[3] + s[4] + s[5] + s[6] + s[7]
  }

  /** One lane of the difference, squared: the 16-bit wrap-around is undone by the signed reading. */
  lemma SignedDiff(a: byte, b: byte)
    ensures var d := (a as int - b as int) % W16; Signed16(d) * Signed16(d) == Sq(Diff(a, b))
  {
  }

  lemma SixteenSteps(a: Vec, b: Vec, i: nat)
    requires i + 16 <= DIM
    ensures DistTo(a, b, i + 16) == DistTo(a, b, i)
              + (Sq(Diff(a[i], b[i])) + Sq(Diff(a[i + 1], b[i + 1])))
              + (Sq(Diff(a[i + 2], b[i + 2])) + Sq(Diff(a[i + 3], b[i + 3])))
              + (Sq(Diff(a[i + 4], b[i + 4])) + Sq(Diff(a[i + 5], b[i + 5])))
              + (Sq(Diff(a[i + 6], b[i + 6])) + Sq(Diff(a[i + 7], b[i + 7])))
              + (Sq(Diff(a[i + 8], b[i + 8])) + Sq(Diff(a[i + 9], b[i + 9])))
              + (Sq(Diff(a[i + 10], b[i + 10])) + Sq(Diff(a[i + 11], b[i + 11])))
              + (Sq(Diff(a[i + 12], b[i + 12])) + Sq(Diff(a[i + 13], b[i + 13])))
              + (Sq(Diff(a[i + 14], b[i + 14])) + Sq(Diff(a[i + 15], b[i + 15])))
  {
    TwoSteps(a, b, i);
    TwoSteps(a, b, i + 2);
    TwoSteps(a, b, i + 4);
    TwoSteps(a, b, i + 6);
    TwoSteps(a, b, i + 8);
    TwoSteps(a, b, i + 10);
    TwoSteps(a, b, i + 12);
    TwoSteps(a, b, i + 14);
  }

  lemma TwoSteps(a: Vec, b: Vec, i: nat)
    requires i + 2 <= DIM
    ensures DistTo(a, b, i + 2) == DistTo(a, b, i) + (Sq(Diff(a[i], b[i])) + Sq(Diff(a[i + 1], b[i + 1])))
  {
    assert DistTo(a, b, i + 2) == DistTo(a, b, i + 1) + Sq(Diff(a[i + 1], b[i + 1]));
  }

  /** One lane pair of one block. */
  function Pair(a: Vec, b: Vec, i: nat, p: nat): nat
    requires i + 16 <= DIM && p < 8
  {
    SqBound(Diff(a[i + 2 * p], b[i + 2 * p]));
    SqBound(Diff(a[i + 2 * p + 1], b[i + 2 * p + 1]));
    Sq(Diff(a[i + 2 * p], b[i + 2 * p])) + Sq(Diff(a[i + 2 * p + 1], b[i + 2 * p + 1]))
  }

  /** The squares of one block of sixteen, summed in pairs. */
  lemma MaddIsPair(a: Vec, b: Vec, i: nat, p: nat)
    requires i + 16 <= DIM && p < 8
    ensures MaddSquares(Sub(Widen(a[i..i + 16]), Widen(b[i..i + 16])))[p] == Pair(a, b, i, p) <= 130050
  {
    LaneIsDiff(a, b, i, 2 * p);
    LaneIsDiff(a, b, i, 2 * p + 1);
    SqBound(Diff(a[i + 2 * p], b[i + 2 * p]));
    SqBound(Diff(a[i + 2 * p + 1], b[i + 2 * p + 1]));
  }

  lemma LaneIsDiff(a: Vec, b: Vec, i: nat, l: nat)
    requires i + 16 <= DIM && l < 16
    ensures Signed16(Sub(Widen(a[i..i + 16]), Widen(b[i..i + 16]))[l]) == Diff(a[i + l], b[i + l])
  {
    SignedDiff(a[i + l], b[i + l]);
    assert a[i..i + 16][l] == a[i + l] && b[i..i + 16][l] == b[i + l];
  }

  /** The eight accumulators after the blocks before i: bounded, and together the distance so far. */
  ghost predicate Accumulated(sum: Sums, a: Vec, b: Vec, from: nat, i: nat)
    requires from <= i <= DIM
  {
    (forall p :: 0 <= p < 8 ==> sum[p] <= 130050 * i) && Total(sum) + DistTo(a, b, from) == DistTo(a, b, i)
  }

  lemma BlockAccumulates(sum: Sums, a: Vec, b: Vec, from: nat, i: nat, next: Sums)
    requires from <= i && i + 16 <= DIM && Accumulated(sum, a, b, from, i)
    requires next == Add32(sum, MaddSquares(Sub(Widen(a[i..i + 16]), Widen(b[i..i + 16]))))
    ensures Accumulated(next, a, b, from, i + 16)
  {
    forall p | 0 <= p < 8 ensures next[p] == sum[p] + Pair(a, b, i, p) && next[p] <= 130050 * (i + 16) {
      MaddIsPair(a, b, i, p);
    }
    SixteenSteps(a, b, i);
    assert Total(next) == Total(sum) + Pair(a, b, i, 0) + Pair(a, b, i, 1) + Pair(a, b, i, 2) + Pair(a, b, i, 3)
                          + Pair(a, b, i, 4) + Pair(a, b, i, 5) + Pair(a, b, i, 6) + Pair(a, b, i, 7);
  }

  /** The horizontal additions do not wrap. */
  lemma HorizontalSum(sum: Sums)
    requires forall p :: 0 <= p < 8 ==> sum[p] <= 130050 * DIM
    ensures var e := HAddZero(HAddZero(sum)); e[0] + e[4] == Total(sum)
  {
    var h := HAddZero(sum);
    assert h[0] == sum[0] + sum[1] && h[1] == sum[2] + sum[3] && h[4] == sum[4] + sum[5] && h[5] == sum[6] + sum[7];
  }

  /** distance_avx2 on the coordinates [from, to): sixteen at a time, added up across lanes at the end. */
  method DistanceAvx2(a: Vec, b: Vec, from: nat, to: nat, ghost blocks: nat) returns (d: nat)
    requires to <= DIM && to == from + 16 * blocks
    ensures d + DistTo(a, b, from) == DistTo(a, b, to)
  {
    var sum: Sums := seq(8, _ => 0);
    var i := from;
    ghost var left := blocks;
    while i < to
      invariant from <= i && i + 16 * left == to
      invariant Accumulated(sum, a, b, from, i)
    {
      var next := Add32(sum, MaddSquares(Sub(Widen(a[i..i + 16]), Widen(b[i..i + 16]))));
      BlockAccumulates(sum, a, b, from, i, next);
      sum := next;
      i := i + 16;
      left := left - 1;
    }
    HorizontalSum(sum);
    var e := HAddZero(HAddZero(sum));
    d := e[0] + e[4];
  }

  // ----- the transposed prefixes

  /** Byte k of vector i sits in group i / 16, row k, lane i % 16. */
  ghost predicate Transposed(sv: seq<byte>, db: seq<Vec>) {
    && |sv| == |db| * MIXER_SIZE
    && forall g: nat, k: nat, j: nat :: GroupEntry(sv, db, g, k, j)
  }

  ghost predicate GroupEntry(sv: seq<byte>, db: seq<Vec>, g: nat, k: nat, j: nat) {
    16 * g + 16 <= |db| && k < MIXER_SIZE && j < 16 && 384 * g + 16 * k + j < |sv|
    ==> sv[384 * g + 16 * k + j] == db[16 * g + j][k]
  }

  /** The shuffle loops; i runs over the groups in steps of 16. */
  method Transpose(db: seq<Vec>, groups: nat) returns (sv: array<byte>)
    requires |db| == 16 * groups
    ensures fresh(sv) && Transposed(sv[..], db)
  {
    sv := new byte[|db| * MIXER_SIZE](_ => 0);
    var g := 0;
    while g < groups
      invariant 0 <= g <= groups
      invariant forall h: nat, k: nat, j: nat :: h < g ==> GroupEntry(sv[..], db, h, k, j)
    {
      for j := 0 to LANE_SIZE
        invariant forall h: nat, k: nat, l: nat :: h < g || (h == g && l < j) ==> GroupEntry(sv[..], db, h, k, l)
      {
        for k := 0 to MIXER_SIZE
          invariant forall h: nat, m: nat, l: nat :: h < g || (h == g && (l < j || (l == j && m < k))) ==>
                      GroupEntry(sv[..], db, h, m, l)
        {
          ghost var before := sv[..];
          sv[384 * g + 16 * k + j] := db[16 * g + j][k];
          forall h: nat, m: nat, l: nat | h < g || (h == g && (l < j || (l == j && m < k + 1)))
            ensures GroupEntry(sv[..], db, h, m, l)
          {
            if h < g || l < j || m < k {
              assert GroupEntry(before, db, h, m, l);
            }
          }
        }
      }
      g := g + 1;
    }
  }

  // ----- the 16-bit scores

  /** Starting from 1 and saturating: one more than the prefix distance, or 65535. */
  function Score(q: Vec, v: Vec, j: nat): u16
    requires j <= DIM
  {
    if 1 + DistTo(q, v, j) < W16 then 1 + DistTo(q, v, j) else W16 - 1
  }

  /** Sixteen lanes hold the scores of the sixteen vectors of group g. */
  ghost predicate Scores(score: Lanes, q: Vec, db: seq<Vec>, g: nat, j: nat)
    requires j <= MIXER_SIZE && 16 * g + 16 <= |db|
  {
    forall l :: 0 <= l < 16 ==> score[l] == Score(q, db[16 * g + l], j)
  }

  /** One coordinate: subtract, square, add with saturation. */
  function ScoreStep(score: Lanes, column: seq<byte>, x: byte): Lanes
    requires |column| == 16
  {
    var d := Sub(Widen(column), Set1(x));
    AddSat(score, MulLo(d, d))
  }

  lemma LaneSquare(h: byte, x: byte)
    ensures var d := (h as int - x as int) % W16; d * d % W16 == Sq(Diff(x, h)) <= 65025
  {
    SquareWraps(Diff(h, x), W16);
    SqBound(Diff(x, h));
    assert Sq(Diff(h, x)) == Sq(Diff(x, h));
  }

  lemma ScoreStepCorrect(score: Lanes, column: seq<byte>, q: Vec, db: seq<Vec>, g: nat, j: nat)
    requires j < MIXER_SIZE && 16 * g + 16 <= |db| && |column| == 16
    requires Scores(score, q, db, g, j) && forall l :: 0 <= l < 16 ==> column[l] == db[16 * g + l][j]
    ensures Scores(ScoreStep(score, column, q[j]), q, db, g, j + 1)
  {
    var next := ScoreStep(score, column, q[j]);
    forall l | 0 <= l < 16 ensures next[l] == Score(q, db[16 * g + l], j + 1) {
      LaneSquare(column[l], q[j]);
      assert score[l] == Score(q, db[16 * g + l], j);
    }
  }

  const NO_QUERY: Vec := seq(DIM, _ => 0)

  type Batch = b: seq<Vec> | |b| == BATCH_SIZE witness [NO_QUERY, NO_QUERY, NO_QUERY, NO_QUERY, NO_QUERY, NO_QUERY]

  /** The scoring loops for one group: every coordinate once, for all queries of the batch. */
  method ScoreGroup(queries: Batch, sv: array<byte>, ghost db: seq<Vec>, g: nat) returns (score: array<Lanes>)
    requires Transposed(sv[..], db) && 16 * g + 16 <= |db|
    ensures fresh(score) && score.Length == BATCH_SIZE
    ensures forall c :: 0 <= c < BATCH_SIZE ==> Scores(score[c], queries[c], db, g, MIXER_SIZE)
  {
    score := new Lanes[BATCH_SIZE](_ => Set1(1));
    for j := 0 to MIXER_SIZE
      invariant forall c :: 0 <= c < BATCH_SIZE ==> Scores(score[c], queries[c], db, g, j)
    {
      var at := 384 * g + 16 * j;
      var column := sv[at..at + 16];
      forall l: nat | l < 16 ensures column[l] == db[16 * g + l][j] {
        assert GroupEntry(sv[..], db, g, j, l);
      }
      for c := 0 to BATCH_SIZE
        invariant forall d :: 0 <= d < BATCH_SIZE ==> Scores(score[d], queries[d], db, g, if d < c then j + 1 else j)
      {
        ScoreStepCorrect(score[c], column, queries[c], db, g, j);
        score[c] := ScoreStep(score[c], column, queries[c][j]);
      }
    }
  }

  // ----- candidates

  /** A lane left out by the mask is no closer than the threshold the mask was made with. */
  ghost predicate MaskCovers(mm: Mask, q: Vec, db: seq<Vec>, g: nat, stale: nat)
    requires 16 * g + 16 <= |db|
  {
    forall l :: 0 <= l < 16 && !mm[l] ==> Dist(q, db[16 * g + l]) >= stale
  }

  lemma ScoresCover(score: Lanes, q: Vec, db: seq<Vec>, g: nat, stale: u16)
    requires 16 * g + 16 <= |db| && stale < W16 - 1 && Scores(score, q, db, g, MIXER_SIZE)
    ensures MaskCovers(NotAbove(score, Set1(stale)), q, db, g, stale)
  {
    forall l | 0 <= l < 16 && score[l] > stale ensures Dist(q, db[16 * g + l]) >= stale {
      assert score[l] == Score(q, db[16 * g + l], MIXER_SIZE);
      DistGrows(q, db[16 * g + l], MIXER_SIZE, DIM);
    }
  }

  /** Vectors that are not closer than the minimum so far leave it as it is. */
  lemma SkipFar(q: Vec, db: seq<Vec>, threshold: nat, n: nat, m: nat, dist: int, idx: int)
    requires n <= m <= |db| && Nearest(q, db, threshold, n, dist, idx)
    requires forall i :: n <= i < m ==> Dist(q, db[i]) >= dist
    ensures Nearest(q, db, threshold, m, dist, idx)
  {
  }

  lemma SkipLanes(q: Vec, db: seq<Vec>, threshold: nat, g: nat, mm: Mask, stale: nat, dist: nat, idx: int, from: nat,
                  to: nat)
    requires 16 * g + 16 <= |db| && dist <= stale && from <= to <= 16 && MaskCovers(mm, q, db, g, stale)
    requires Nearest(q, db, threshold, 16 * g + from, dist, idx) && forall l :: from <= l < to ==> !mm[l]
    ensures Nearest(q, db, threshold, 16 * g + to, dist, idx)
  {
    forall i | 16 * g + from <= i < 16 * g + to ensures Dist(q, db[i]) >= dist {
      assert !mm[i - 16 * g];
    }
    SkipFar(q, db, threshold, 16 * g + from, 16 * g + to, dist, idx);
  }

  /** Looking at one more vector in full. */
  lemma TakeOne(q: Vec, db: seq<Vec>, threshold: nat, n: nat, dist: int, idx: int)
    requires n < |db| && Nearest(q, db, threshold, n, dist, idx) && dist <= threshold
    ensures if Dist(q, db[n]) < dist then Nearest(q, db, threshold, n + 1, Dist(q, db[n]), n)
            else Nearest(q, db, threshold, n + 1, dist, idx)
  {
  }

  /**
   The walk over the candidates of one group.  The mask was made with the minimum at the start
   of the group; the minimum may drop on the way, the mask stays.
   */
  method WalkMask(q: Vec, db: seq<Vec>, ghost threshold: nat, g: nat, mm: Mask, dist0: nat, idx0: int)
    returns (dist: nat, idx: int)
    requires 16 * g + 16 <= |db| && MaskCovers(mm, q, db, g, dist0) && dist0 <= threshold
    requires Nearest(q, db, threshold, 16 * g, dist0, idx0)
    ensures Nearest(q, db, threshold, 16 * g + 16, dist, idx) && dist <= dist0
  {
    dist, idx := dist0, idx0;
    ghost var upto := 0;
    var j := FirstLane(mm, 0);
    while j < 16
      invariant upto <= j <= 16 && (forall l :: upto <= l < j ==> !mm[l])
      invariant Nearest(q, db, threshold, 16 * g + upto, dist, idx) && dist <= dist0
      decreases 16 - j
    {
      SkipLanes(q, db, threshold, g, mm, dist0, dist, idx, upto, j);
      TakeOne(q, db, threshold, 16 * g + j, dist, idx);
      var fullIdx := 16 * g + j;
      var fullDist := DistanceAvx2(q, db[fullIdx], 0, DIM, 9);
      if fullDist < dist {
        dist, idx := fullDist, fullIdx;
      }
      upto := j + 1;
      j := FirstLane(mm, j + 1);
    }
    SkipLanes(q, db, threshold, g, mm, dist0, dist, idx, upto, 16);
  }

  // ----- the search

  /** Thresholds are cut below the largest 16-bit value. */
  function Clip(threshold: nat): u16 {
    if threshold >= W16 - 1 then W16 - 2 else threshold
  }

  /** The masks of all queries of the batch, and whether any lane is a candidate. */
  method Masks(score: array<Lanes>, thres: array<Lanes>) returns (mm: array<Mask>, any: bool)
    requires score.Length == BATCH_SIZE && thres.Length == BATCH_SIZE
    ensures fresh(mm) && mm.Length == BATCH_SIZE
    ensures forall c :: 0 <= c < BATCH_SIZE ==> mm[c] == NotAbove(score[c], thres[c])
    ensures !any ==> forall c, l :: 0 <= c < BATCH_SIZE && 0 <= l < 16 ==> !mm[c][l]
  {
    mm := new Mask[BATCH_SIZE](_ => seq(16, _ => false));
    any := false;
    for c := 0 to BATCH_SIZE
      invariant forall d :: 0 <= d < c ==> mm[d] == NotAbove(score[d], thres[d])
      invariant !any ==> forall d, l :: 0 <= d < c && 0 <= l < 16 ==> !mm[d][l]
    {
      var m := NotAbove(score[c], thres[c]);
      mm[c] := m;
      any := any || FirstLane(m, 0) < 16;
    }
  }

  /** The state of one query: the answer for the first n vectors, and its threshold in every lane. */
  ghost predicate Found(q: Vec, db: seq<Vec>, threshold: u16, n: nat, dist: nat, idx: int, lanes: Lanes)
    requires n <= |db|
  {
    Nearest(q, db, threshold, n, dist, idx) && dist <= threshold < W16 - 1 && lanes == Set1(dist)
  }

  /** The candidate loop of one group, for all queries of the batch. */
  method WalkGroup(queries: Batch, db: seq<Vec>, mm: array<Mask>, ghost threshold: u16, g: nat,
                   minDist: array<nat>, minIdx: array<int>, thres: array<Lanes>)
    requires 16 * g + 16 <= |db| && mm.Length == BATCH_SIZE
    requires minDist.Length == BATCH_SIZE && minIdx.Length == BATCH_SIZE && thres.Length == BATCH_SIZE
    requires mm as object != minDist as object && mm as object != minIdx as object && mm as object != thres as object
    requires minDist as object != minIdx as object && minDist as object != thres as object
             && minIdx as object != thres as object
    requires forall c :: 0 <= c < BATCH_SIZE ==>
               Found(queries[c], db, threshold, 16 * g, minDist[c], minIdx[c], thres[c])
    requires forall c :: 0 <= c < BATCH_SIZE ==> MaskCovers(mm[c], queries[c], db, g, minDist[c])
    modifies minDist, minIdx, thres
    ensures forall c :: 0 <= c < BATCH_SIZE ==>
              Found(queries[c], db, threshold, 16 * g + 16, minDist[c], minIdx[c], thres[c])
  {
    for c := 0 to BATCH_SIZE
      invariant forall d :: 0 <= d < c ==>
                  Found(queries[d], db, threshold, 16 * g + 16, minDist[d], minIdx[d], thres[d])
      invariant forall d :: c <= d < BATCH_SIZE ==>
                  Found(queries[d], db, threshold, 16 * g, minDist[d], minIdx[d], thres[d])
      invariant forall d :: c <= d < BATCH_SIZE ==> MaskCovers(mm[d], queries[d], db, g, minDist[d])
    {
      var dist, idx := WalkMask(queries[c], db, threshold, g, mm[c], minDist[c], minIdx[c]);
      minDist[c], minIdx[c] := dist, idx;
      thres[c] := Set1(dist);
    }
  }

  /** One group of sixteen vectors for every query of the batch. */
  method SearchGroup(queries: Batch, db: seq<Vec>, sv: array<byte>, ghost threshold: u16, g: nat,
                     minDist: array<nat>, minIdx: array<int>, thres: array<Lanes>)
    requires Transposed(sv[..], db) && 16 * g + 16 <= |db|
    requires minDist.Length == BATCH_SIZE && minIdx.Length == BATCH_SIZE && thres.Length == BATCH_SIZE
    requires minDist as object != minIdx as object && minDist as object != thres as object
             && minIdx as object != thres as object
    requires forall c :: 0 <= c < BATCH_SIZE ==>
               Found(queries[c], db, threshold, 16 * g, minDist[c], minIdx[c], thres[c])
    modifies minDist, minIdx, thres
    ensures forall c :: 0 <= c < BATCH_SIZE ==>
              Found(queries[c], db, threshold, 16 * g + 16, minDist[c], minIdx[c], thres[c])
  {
    var score := ScoreGroup(queries, sv, db, g);
    var mm, any := Masks(score, thres);
    forall c | 0 <= c < BATCH_SIZE ensures MaskCovers(mm[c], queries[c], db, g, minDist[c]) {
      assert Found(queries[c], db, threshold, 16 * g, minDist[c], minIdx[c], thres[c]);
      ScoresCover(score[c], queries[c], db, g, minDist[c]);
    }
    if !any {
      forall c | 0 <= c < BATCH_SIZE
        ensures Found(queries[c], db, threshold, 16 * g + 16, minDist[c], minIdx[c], thres[c])
      {
        SkipLanes(queries[c], db, threshold, g, mm[c], minDist[c], minDist[c], minIdx[c], 0, 16);
      }
      return;
    }
    WalkGroup(queries, db, mm, threshold, g, minDist, minIdx, thres);
  }

  /** Nothing found yet: the whole batch starts at the clipped threshold. */
  method StartBatch(limit: u16) returns (minDist: array<nat>, minIdx: array<int>, thres: array<Lanes>)
    ensures fresh(minDist) && fresh(minIdx) && fresh(thres)
    ensures minDist.Length == BATCH_SIZE && minIdx.Length == BATCH_SIZE && thres.Length == BATCH_SIZE
    ensures minDist as object != minIdx as object && minDist as object != thres as object
            && minIdx as object != thres as object
    ensures forall c :: 0 <= c < BATCH_SIZE ==> minDist[c] == limit && minIdx[c] == -1 && thres[c] == Set1(limit)
  {
    minDist := new nat[BATCH_SIZE](_ => limit);
    minIdx := new int[BATCH_SIZE](_ => -1);
    thres := new Lanes[BATCH_SIZE](_ => Set1(limit));
  }

  /**
   mmdist-short-inv-avx2 on one batch.  None is the alignment error; otherwise each query gets
   the nearest vector below the threshold and below 65534, lowest index first.
   */
  method SearchBatch(queries: Batch, db: seq<Vec>, threshold: nat) returns (res: Option<(seq<nat>, seq<int>)>)
    ensures res.None? <==> |db| % 16 != 0
    ensures res.Some? ==> |res.value.0| == BATCH_SIZE && |res.value.1| == BATCH_SIZE
                          && forall c :: 0 <= c < BATCH_SIZE ==>
                               Nearest(queries[c], db, if threshold < 65534 then threshold else 65534, |db|,
                                       res.value.0[c], res.value.1[c])
  {
    if |db| % LANE_SIZE != 0 {
      return None;
    }
    var groups := |db| / LANE_SIZE;
    var sv := Transpose(db, groups);
    ghost var table := sv[..];
    var minDist, minIdx, thres := StartBatch(Clip(threshold));
    var g := 0;
    while g < groups
      modifies minDist, minIdx, thres
      invariant g <= groups && sv[..] == table
      invariant forall c :: 0 <= c < BATCH_SIZE ==>
                  Found(queries[c], db, Clip(threshold), 16 * g, minDist[c], minIdx[c], thres[c])
    {
      SearchGroup(queries, db, sv, Clip(threshold), g, minDist, minIdx, thres);
      g := g + 1;
    }
    return Some((minDist[..], minIdx[..]));
  }

  /**
   The saturating search answers like the naive scan when the nearest vector is closer than the
   threshold and than 65534, and otherwise finds nothing.
   */
  lemma FastAgreesWithNaive(q: Vec, db: seq<Vec>, threshold: nat, naiveDist: nat, naiveIdx: int, fastDist: nat,
                            fastIdx: int)
    requires Nearest(q, db, UINT32_MAX, |db|, naiveDist, naiveIdx)
    requires Nearest(q, db, if threshold < 65534 then threshold else 65534, |db|, fastDist, fastIdx)
    ensures if naiveDist < threshold && naiveDist < 65534 then fastDist == naiveDist && fastIdx == naiveIdx
            else fastIdx == -1 && fastDist == if threshold < 65534 then threshold else 65534
  {
    var cut := if threshold < 65534 then threshold else 65534;
    CutAtThreshold(q, db, UINT32_MAX, cut, naiveDist, naiveIdx);
    if naiveDist < cut {
      NearestUnique(q, db, cut, |db|, naiveDist, naiveIdx, fastDist, fastIdx);
    } else {
      NearestUnique(q, db, cut, |db|, cut, -1, fastDist, fastIdx);
    }
  }

  // ----- mmdist-short-avx2

  const PREFIX_SIZE := 32

  /**
   The scan of mmdist-short-avx2 for one query: a vector whose prefix alone is too far is
   skipped.  The minimum starts at the largest 32-bit value, so without a hit that is what it
   keeps, whatever the threshold.
   */
  method PrefixScan(q: Vec, db: seq<Vec>, threshold: nat) returns (minDist: nat, minIdx: int)
    requires threshold <= UINT32_MAX
    ensures Nearest(q, db, threshold, |db|, if minIdx == -1 then threshold else minDist, minIdx)
    ensures minIdx == -1 ==> minDist == UINT32_MAX
  {
    minDist := UINT32_MAX;
    minIdx := -1;
    for i := 0 to |db|
      invariant Nearest(q, db, threshold, i, if minIdx == -1 then threshold else minDist, minIdx)
      invariant minIdx == -1 ==> minDist == UINT32_MAX
    {
      var shortDist := DistanceAvx2(q, db[i], 0, PREFIX_SIZE, 2);
      DistGrows(q, db[i], PREFIX_SIZE, DIM);
      if shortDist > minDist || shortDist > threshold {
        continue;
      }
      var rest := DistanceAvx2(q, db[i], PREFIX_SIZE, DIM, 7);
      var fullDist := shortDist + rest;
      if fullDist < minDist && fullDist < threshold {
        minDist, minIdx := fullDist, i;
      }
    }
  }
}
