/** mmdist-short-inv: the transposed, prefix-pruned search without vector instructions. */
module MmdistScalar {
  import opened Basics
  import opened Distances
  import opened Mmdist

  const W := 0x1_0000_0000

  /** (uint16_t)q - t, squared, in 32 bits. */
  function Square32(q: byte, t: byte): nat {
    Diff(q, t) % W * (Diff(q, t) % W) % W
  }

  /** One coordinate more. */
  lemma OneCoordinate(a: Vec, b: Vec, i: nat)
    requires i < DIM
    ensures (DistTo(a, b, i) + Square32(a[i], b[i])) % W == DistTo(a, b, i + 1)
  {
    SquareWraps(Diff(a[i], b[i]), W);
    DistBound(a, b, i + 1);
  }

  /** distance() on the coordinates from .. DIM. */
  method DistanceFrom(a: Vec, b: Vec, from: nat) returns (d: nat)
    requires from <= DIM
    ensures DistTo(a, b, from) + d == Dist(a, b)
  {
    d := 0;
    for i := from to DIM
      invariant DistTo(a, b, from) + d == DistTo(a, b, i)
    {
      SquareWraps(Diff(a[i], b[i]), W);
      DistBound(a, b, i + 1);
      d := (d + Square32(a[i], b[i])) % W;
    }
  }

  /** The table of scores while column j is being added: pairs before (l, c) have it already. */
  ghost predicate Scored(scores: array2<nat>, queries: Batch, db: seq<Vec>, g: nat, j: nat, l: nat, c: nat)
    requires scores.Length0 == BATCH_SIZE && scores.Length1 == LANE_SIZE && 16 * g + 16 <= |db| && j < DIM
    reads scores
  {
    forall d, m :: 0 <= d < BATCH_SIZE && 0 <= m < LANE_SIZE ==>
      scores[d, m] == DistTo(queries[d], db[16 * g + m], if m < l || (m == l && d < c) then j + 1 else j)
  }

  ghost predicate AllScored(scores: array2<nat>, queries: Batch, db: seq<Vec>, g: nat, j: nat)
    requires scores.Length0 == BATCH_SIZE && scores.Length1 == LANE_SIZE && 16 * g + 16 <= |db| && j <= DIM
    reads scores
  {
    forall d, m :: 0 <= d < BATCH_SIZE && 0 <= m < LANE_SIZE ==> scores[d, m] == DistTo(queries[d], db[16 * g + m], j)
  }

  method AddColumn(scores: array2<nat>, queries: Batch, sv: array<byte>, ghost db: seq<Vec>, g: nat, j: nat)
    requires scores.Length0 == BATCH_SIZE && scores.Length1 == LANE_SIZE
    requires Transposed(sv[..], db) && 16 * g + 16 <= |db| && j < MIXER_SIZE
    requires AllScored(scores, queries, db, g, j)
    modifies scores
    ensures AllScored(scores, queries, db, g, j + 1)
  {
    for l := 0 to LANE_SIZE
      invariant Scored(scores, queries, db, g, j, l, 0)
    {
      assert GroupEntry(sv[..], db, g, j, l);
      var t := sv[384 * g + 16 * j + l];
      for c := 0 to BATCH_SIZE
        invariant Scored(scores, queries, db, g, j, l, c)
      {
        OneCoordinate(queries[c], db[16 * g + l], j);
        scores[c, l] := (scores[c, l] + Square32(queries[c][j], t)) % W;
      }
    }
  }

  /** The scoring loops of one group. */
  method ScoreLanes(queries: Batch, sv: array<byte>, ghost db: seq<Vec>, g: nat) returns (scores: array2<nat>)
    requires Transposed(sv[..], db) && 16 * g + 16 <= |db|
    ensures fresh(scores) && scores.Length0 == BATCH_SIZE && scores.Length1 == LANE_SIZE
    ensures AllScored(scores, queries, db, g, MIXER_SIZE)
  {
    scores := new nat[BATCH_SIZE, LANE_SIZE]((_, _) => 0);
    for j := 0 to MIXER_SIZE
      invariant AllScored(scores, queries, db, g, j)
    {
      AddColumn(scores, queries, sv, db, g, j);
    }
  }

  /** The nearest vector below the threshold so far; without one the minimum is still the largest 32-bit value. */
  ghost predicate Best(q: Vec, db: seq<Vec>, threshold: nat, n: nat, minDist: nat, minIdx: int)
    requires n <= |db|
  {
    && Nearest(q, db, threshold, n, if minIdx == -1 then threshold else minDist, minIdx)
    && (minIdx == -1 ==> minDist == UINT32_MAX)
  }

  /**
   The candidate loop of one group for query c: a vector is looked at in full only if its score is
   below the minimum.
   */
  method WalkLanes(q: Vec, db: seq<Vec>, scores: seq<nat>, g: nat, threshold: nat, dist0: nat, idx0: int)
    returns (minDist: nat, minIdx: int)
    requires threshold <= UINT32_MAX && 16 * g + 16 <= |db| && |scores| == LANE_SIZE
    requires forall l :: 0 <= l < LANE_SIZE ==> scores[l] == DistTo(q, db[16 * g + l], MIXER_SIZE)
    requires Best(q, db, threshold, 16 * g, dist0, idx0)
    ensures Best(q, db, threshold, 16 * g + 16, minDist, minIdx)
  {
    minDist, minIdx := dist0, idx0;
    for l := 0 to LANE_SIZE
      invariant Best(q, db, threshold, 16 * g + l, minDist, minIdx)
    {
      DistGrows(q, db[16 * g + l], MIXER_SIZE, DIM);
      if scores[l] < minDist && scores[l] <= threshold {
        var rest := DistanceFrom(q, db[16 * g + l], MIXER_SIZE);
        var fullDist := scores[l] + rest;
        if fullDist < minDist && fullDist < threshold {
          minDist, minIdx := fullDist, 16 * g + l;
        }
      }
    }
  }

  ghost predicate BestOfAll(queries: Batch, db: seq<Vec>, threshold: nat, n: nat, minDist: seq<nat>, minIdx: seq<int>,
                            upto: nat, m: nat)
    requires n <= m <= |db| && |minDist| == |minIdx| == BATCH_SIZE
  {
    forall c :: 0 <= c < BATCH_SIZE ==>
        Best(queries[c], db, threshold, if c < upto then m else n, minDist[c], minIdx[c])
  }

  /** One group for every query of the batch. */
  method SearchLanes(queries: Batch, db: seq<Vec>, sv: array<byte>, threshold: nat, g: nat, minDist: array<nat>,
                     minIdx: array<int>)
    requires Transposed(sv[..], db) && 16 * g + 16 <= |db| && threshold <= UINT32_MAX
    requires minDist.Length == BATCH_SIZE == minIdx.Length && minDist as object != minIdx as object
    requires BestOfAll(queries, db, threshold, 16 * g, minDist[..], minIdx[..], 0, 16 * g + 16)
    modifies minDist, minIdx
    ensures BestOfAll(queries, db, threshold, 16 * g, minDist[..], minIdx[..], BATCH_SIZE, 16 * g + 16)
  {
    var scores := ScoreLanes(queries, sv, db, g);
    for c := 0 to BATCH_SIZE
      invariant AllScored(scores, queries, db, g, MIXER_SIZE)
      invariant BestOfAll(queries, db, threshold, 16 * g, minDist[..], minIdx[..], c, 16 * g + 16)
    {
      var row := seq(LANE_SIZE, l requires 0 <= l < LANE_SIZE reads scores => scores[c, l]);
      var dist, idx := WalkLanes(queries[c], db, row, g, threshold, minDist[c], minIdx[c]);
      minDist[c] := dist;
      minIdx[c] := idx;
    }
  }

  /** The search for one batch of queries; None for a database that is not a whole number of groups. */
  method SearchScalar(queries: Batch, db: seq<Vec>, threshold: nat) returns (res: Option<(seq<nat>, seq<int>)>)
    requires threshold <= UINT32_MAX
    ensures res.None? <==> |db| % LANE_SIZE != 0
    ensures res.Some? ==> |res.value.0| == |res.value.1| == BATCH_SIZE
                          && forall c :: 0 <= c < BATCH_SIZE ==>
                               Best(queries[c], db, threshold, |db|, res.value.0[c], res.value.1[c])
  {
    if |db| % LANE_SIZE != 0 {
      return None;
    }
    var groups := |db| / LANE_SIZE;
    var sv := Transpose(db, groups);
    var minDist := new nat[BATCH_SIZE](_ => UINT32_MAX);
    var minIdx := new int[BATCH_SIZE](_ => -1);
    var g := 0;
    while g < groups
      invariant 0 <= g <= groups && Transposed(sv[..], db)
      invariant BestOfAll(queries, db, threshold, 16 * g, minDist[..], minIdx[..], 0, 16 * g)
    {
      SearchLanes(queries, db, sv, threshold, g, minDist, minIdx);
      g := g + 1;
    }
    res := Some((minDist[..], minIdx[..]));
  }

  /**
   The scalar search and the vectorised one agree on every query and every threshold, except that
   the vectorised one cuts the threshold to 16 bits and does not report what lies above.
   */
  lemma ScalarAgreesWithFast(q: Vec, db: seq<Vec>, threshold: nat, minDist: nat, minIdx: int, fastDist: nat,
                             fastIdx: int)
    requires Best(q, db, threshold, |db|, minDist, minIdx)
    requires Nearest(q, db, if threshold < 65534 then threshold else 65534, |db|, fastDist, fastIdx)
    ensures if minIdx != -1 && minDist < 65534 then fastIdx == minIdx && fastDist == minDist
            else fastIdx == -1 && fastDist == if threshold < 65534 then threshold else 65534
  {
    var cut := if threshold < 65534 then threshold else 65534;
    var dist := if minIdx == -1 then threshold else minDist;
    CutAtThreshold(q, db, threshold, cut, dist, minIdx);
    if dist < cut {
      NearestUnique(q, db, cut, |db|, dist, minIdx, fastDist, fastIdx);
    } else {
      NearestUnique(q, db, cut, |db|, cut, -1, fastDist, fastIdx);
    }
  }
}
