/**
 The open-addressing table of mmuniq: linear probing that gives up after 4096 slots, 0 as the
 empty marker, and the doubling that reinserts the old slots.
 */
module HashTable {
  import opened Basics
  import opened Arith

  const OVERFLOW_AFTER := 4096

  // ----- probing

  function SlotOf(t: seq<nat>, h: nat, d: nat): (i: nat)
    requires |t| > 0
    ensures i < |t|
  {
    (h + d) % |t|
  }

  /** What hash_insert returns, and the table it leaves; miss is 1 for new, 0 for found, -1 for given up. */
  datatype Insertion = Insertion(table: seq<nat>, miss: int)

  function InsertFrom(t: seq<nat>, h: nat, d: nat): (r: Insertion)
    requires |t| > 0 && d <= OVERFLOW_AFTER
    ensures |r.table| == |t| && -1 <= r.miss <= 1
    decreases OVERFLOW_AFTER - d
  {
    if d == OVERFLOW_AFTER then Insertion(t, -1)
    else if t[SlotOf(t, h, d)] == 0 then Insertion(t[SlotOf(t, h, d) := h], 1)
    else if t[SlotOf(t, h, d)] == h then Insertion(t, 0)
    else InsertFrom(t, h, d + 1)
  }

  /** The 64-bit bound h + 4096 wraps for the topmost hashes, and then nothing is probed. */
  predicate BoundWraps(h: nat) {
    h + OVERFLOW_AFTER >= TWO64
  }

  function Insert(t: seq<nat>, h: nat): (r: Insertion)
    requires |t| > 0
    ensures |r.table| == |t| && -1 <= r.miss <= 1
  {
    if BoundWraps(h) then Insertion(t, -1) else InsertFrom(t, h, 0)
  }

  lemma MaskedSlot(t: seq<nat>, h: nat, i: nat, k: nat)
    requires |t| == Pow2(k) && h <= i
    ensures BitAnd(i, |t| - 1) == SlotOf(t, h, i - h)
  {
    MaskIsMod(i, k);
  }

  /** The loop runs over h, h + 1, ... while below the wrapped 64-bit bound. */
  lemma StopBound(h: nat)
    requires h < TWO64
    ensures var stop := (h + OVERFLOW_AFTER) % TWO64;
            if BoundWraps(h) then stop < h else stop == h + OVERFLOW_AFTER
  {
  }

  /** hash_insert on the table in place. */
  method HashInsert(h: uint64, bm: array<uint64>, ghost k: nat) returns (miss: int)
    requires bm.Length == Pow2(k)
    modifies bm
    ensures Insertion(bm[..], miss) == Insert(old(bm[..]), h)
  {
    var sizeMask := bm.Length - 1;
    miss := -1;
    var i: nat := h;
    var stop := (h + OVERFLOW_AFTER) % TWO64;
    StopBound(h);
    ghost var t := bm[..];
    while i < stop
      invariant h <= i && (i < stop ==> !BoundWraps(h)) && (!BoundWraps(h) ==> i <= stop)
      invariant miss == -1 && bm[..] == t
      invariant !BoundWraps(h) ==> Insert(t, h) == InsertFrom(t, h, i - h)
      decreases stop - i
    {
      MaskedSlot(t, h, i, k);
      var v := BitAnd(i, sizeMask);
      if bm[v] == 0 {
        bm[v] := h;
        miss := 1;
        break;
      } else if bm[v] == h {
        miss := 0;
        break;
      }
      i := i + 1;
    }
  }

  // ----- the probe invariant

  /** d steps from its home the value at slot p is found, past slots that hold other values. */
  ghost predicate FoundAfter(t: seq<nat>, p: nat, d: nat)
    requires p < |t|
  {
    && d < OVERFLOW_AFTER
    && SlotOf(t, t[p], d) == p
    && forall e :: 0 <= e < d ==> t[SlotOf(t, t[p], e)] != 0 && t[SlotOf(t, t[p], e)] != t[p]
  }

  ghost predicate Reachable(t: seq<nat>, p: nat)
    requires p < |t|
  {
    !BoundWraps(t[p]) && exists d: nat :: FoundAfter(t, p, d)
  }

  /** Every stored value is reachable from its home slot. */
  ghost predicate WellFormed(t: seq<nat>) {
    |t| > 0 && forall p :: 0 <= p < |t| && t[p] != 0 ==> Reachable(t, p)
  }

  predicate Stored(t: seq<nat>, h: nat) {
    h != 0 && h in t
  }

  /** In a well-formed table no value is stored twice. */
  lemma StoredOnce(t: seq<nat>, p: nat, q: nat)
    requires WellFormed(t) && p < |t| && q < |t| && p != q && t[p] != 0
    ensures t[p] != t[q]
  {
    assert Reachable(t, p) && (t[q] != 0 ==> Reachable(t, q));
    var d: nat :| FoundAfter(t, p, d);
    assert SlotOf(t, t[p], d) == p;
    assert t[q] != 0 ==> exists e: nat :: FoundAfter(t, q, e) && SlotOf(t, t[q], e) == q;
  }

  /** The probe sequence up to d is full of other values. */
  ghost predicate PassedOver(t: seq<nat>, h: nat, d: nat)
    requires |t| > 0
  {
    forall e :: 0 <= e < d ==> t[SlotOf(t, h, e)] != 0 && t[SlotOf(t, h, e)] != h
  }

  /** The probe of h ends without a result. */
  ghost predicate GivesUp(t: seq<nat>, h: nat)
    requires |t| > 0
  {
    BoundWraps(h) || PassedOver(t, h, OVERFLOW_AFTER)
  }

  /** Where the probe of h stops: the first slot that is empty or holds h, or nowhere. */
  lemma {:induction false} ProbeStops(t: seq<nat>, h: nat, d: nat) returns (e: nat)
    requires |t| > 0 && d <= OVERFLOW_AFTER && PassedOver(t, h, d)
    ensures d <= e <= OVERFLOW_AFTER && PassedOver(t, h, e)
    ensures InsertFrom(t, h, d) == InsertFrom(t, h, e)
    ensures e < OVERFLOW_AFTER ==> t[SlotOf(t, h, e)] == 0 || t[SlotOf(t, h, e)] == h
    decreases OVERFLOW_AFTER - d
  {
    if d == OVERFLOW_AFTER || t[SlotOf(t, h, d)] == 0 || t[SlotOf(t, h, d)] == h {
      e := d;
    } else {
      e := ProbeStops(t, h, d + 1);
    }
  }

  /** An insertion is given up exactly when the bound wraps or 4096 slots in a row hold other values. */
  lemma GivenUpIff(t: seq<nat>, h: nat)
    requires |t| > 0
    ensures Insert(t, h).miss == -1 <==>
            h + 4096 >= 0x1_0000_0000_0000_0000
            || forall d :: 0 <= d < 4096 ==> t[SlotOf(t, h, d)] != 0 && t[SlotOf(t, h, d)] != h
  {
    if !BoundWraps(h) { var e := ProbeStops(t, h, 0); }
  }

  /** Filling an empty slot keeps every other value where its probe finds it. */
  lemma FillKeepsReachable(t: seq<nat>, h: nat, s: nat, p: nat)
    requires WellFormed(t) && s < |t| && t[s] == 0 && !Stored(t, h)
    requires p < |t| && p != s && t[p] != 0
    ensures Reachable(t[s := h], p)
  {
    var t' := t[s := h];
    assert Reachable(t, p);
    var d: nat :| FoundAfter(t, p, d);
    forall e | 0 <= e < d ensures t'[SlotOf(t', t'[p], e)] != 0 && t'[SlotOf(t', t'[p], e)] != t'[p] {
      assert SlotOf(t', t'[p], e) == SlotOf(t, t[p], e) != s;
    }
    assert FoundAfter(t', p, d);
  }

  /** A probe never passes over its own value, nor over the hole where it would have been put. */
  lemma StoredMeansFound(t: seq<nat>, h: nat, e: nat)
    requires WellFormed(t) && Stored(t, h) && e <= OVERFLOW_AFTER && PassedOver(t, h, e)
    ensures e < OVERFLOW_AFTER && (t[SlotOf(t, h, e)] == 0 || t[SlotOf(t, h, e)] == h ==> t[SlotOf(t, h, e)] == h)
    ensures !BoundWraps(h)
  {
    var p :| 0 <= p < |t| && t[p] == h;
    assert Reachable(t, p);
    var d: nat :| FoundAfter(t, p, d);
    assert SlotOf(t, h, d) == p;
  }

  lemma WrappedNotStored(t: seq<nat>, h: nat)
    requires WellFormed(t) && BoundWraps(h)
    ensures !Stored(t, h)
  {
    forall p | 0 <= p < |t| && t[p] != 0 ensures t[p] != h {
      assert Reachable(t, p);
    }
  }

  ghost function Values(t: seq<nat>): set<nat> {
    set h | h in t && h != 0
  }

  /** The full contract of an insertion into a well-formed table. */
  lemma InsertCorrect(t: seq<nat>, h: nat)
    requires WellFormed(t)
    ensures var r := Insert(t, h);
            && |r.table| == |t| && WellFormed(r.table)
            && r.miss in {-1, 0, 1}
            && (r.miss != 1 ==> r.table == t)
            && (h != 0 ==> (r.miss == 0 <==> Stored(t, h)))
            && (h != 0 && r.miss == 1 ==> !Stored(t, h) && Values(r.table) == Values(t) + {h})
            && (r.miss == -1 <==> GivesUp(t, h))
            && (h == 0 ==> r.table == t && r.miss != 0)
            && (h != 0 && r.miss == 1 ==> exists s :: 0 <= s < |t| && t[s] == 0 && r.table == t[s := h])
  {
    if BoundWraps(h) {
      WrappedNotStored(t, h);
    } else {
      var e := ProbeStops(t, h, 0);
      if Stored(t, h) { StoredMeansFound(t, h, e); }
      if e < OVERFLOW_AFTER {
        var s := SlotOf(t, h, e);
        if t[s] == 0 && h != 0 {
          InsertedIsReachable(t, h, e);
          FilledValues(t, h, s);
        } else if t[s] == 0 {
          assert t[s := h] == t;
        }
      }
    }
  }

  lemma FilledValues(t: seq<nat>, h: nat, s: nat)
    requires s < |t| && t[s] == 0 && h != 0
    ensures Values(t[s := h]) == Values(t) + {h}
  {
    var t' := t[s := h];
    assert t'[s] == h;
    forall v | v in t && v != 0 ensures v in t' {
      var p :| 0 <= p < |t| && t[p] == v;
      assert t'[p] == v;
    }
  }

  lemma InsertedIsReachable(t: seq<nat>, h: nat, e: nat)
    requires WellFormed(t) && h != 0 && !BoundWraps(h) && !Stored(t, h)
    requires e < OVERFLOW_AFTER && PassedOver(t, h, e) && t[SlotOf(t, h, e)] == 0
    ensures WellFormed(t[SlotOf(t, h, e) := h])
  {
    var s := SlotOf(t, h, e);
    var t' := t[s := h];
    forall p | 0 <= p < |t'| && t'[p] != 0 ensures Reachable(t', p) {
      if p == s {
        forall d | 0 <= d < e ensures t'[SlotOf(t', h, d)] != 0 && t'[SlotOf(t', h, d)] != h {
          assert SlotOf(t', h, d) == SlotOf(t, h, d);
        }
        assert FoundAfter(t', p, e);
      } else {
        FillKeepsReachable(t, h, s, p);
      }
    }
  }

  /** A second insertion reports "seen" exactly when the hash is not the empty marker and its probe does not give up. */
  lemma ReinsertIff(t: seq<nat>, h: nat)
    requires WellFormed(t)
    ensures Insert(Insert(t, h).table, h).miss == 0 <==> h != 0 && !GivesUp(t, h)
  {
    InsertCorrect(t, h);
    InsertCorrect(Insert(t, h).table, h);
    if h != 0 && Insert(t, h).miss == 1 {
      assert h in Values(Insert(t, h).table);
    }
  }

  // ----- runs of insertions

  datatype InsertRun = InsertRun(table: seq<nat>, misses: seq<int>)

  function InsertAll(t: seq<nat>, hs: seq<nat>): (r: InsertRun)
    requires |t| > 0
    ensures |r.table| == |t| && |r.misses| == |hs|
  {
    if hs == [] then InsertRun(t, [])
    else
      var before := InsertAll(t, hs[..|hs| - 1]);
      var last := Insert(before.table, hs[|hs| - 1]);
      InsertRun(last.table, before.misses + [last.miss])
  }

  /** hs[j] was newly stored by the run, at some j below i. */
  ghost predicate StoredByRun(t: seq<nat>, hs: seq<nat>, i: nat, v: nat)
    requires |t| > 0 && i <= |hs|
  {
    v != 0 && exists j :: 0 <= j < i && hs[j] == v && InsertAll(t, hs).misses[j] == 1
  }

  lemma RunPrefix(t: seq<nat>, hs: seq<nat>, i: nat)
    requires |t| > 0 && i <= |hs|
    ensures InsertAll(t, hs[..i]).misses == InsertAll(t, hs).misses[..i]
    decreases |hs|
  {
    if i < |hs| {
      var n := |hs| - 1;
      RunPrefix(t, hs[..n], i);
      assert hs[..n][..i] == hs[..i];
    } else {
      assert hs[..i] == hs;
    }
  }

  lemma StoredByPrefix(t: seq<nat>, hs: seq<nat>, i: nat, v: nat)
    requires |t| > 0 && i <= |hs|
    ensures StoredByRun(t, hs[..i], i, v) <==> StoredByRun(t, hs, i, v)
  {
    RunPrefix(t, hs, i);
    var before, all := InsertAll(t, hs[..i]).misses, InsertAll(t, hs).misses;
    assert forall j :: 0 <= j < i ==> hs[..i][j] == hs[j] && before[j] == all[j];
  }

  /** A run keeps the table well-formed and stores exactly the hashes it reported as new. */
  lemma {:induction false} RunStores(t: seq<nat>, hs: seq<nat>)
    requires WellFormed(t)
    ensures WellFormed(InsertAll(t, hs).table)
    ensures forall v :: v in Values(InsertAll(t, hs).table) <==> v in Values(t) || StoredByRun(t, hs, |hs|, v)
    decreases |hs|
  {
    if hs != [] {
      var n := |hs| - 1;
      var before := InsertAll(t, hs[..n]);
      RunStores(t, hs[..n]);
      InsertCorrect(before.table, hs[n]);
      forall v ensures v in Values(InsertAll(t, hs).table) <==> v in Values(t) || StoredByRun(t, hs, |hs|, v) {
        StoredByPrefix(t, hs, n, v);
        assert StoredByRun(t, hs, n + 1, v) <==>
               StoredByRun(t, hs, n, v) || (v != 0 && hs[n] == v && InsertAll(t, hs).misses[n] == 1);
      }
    }
  }

  /** Over any run a hash is reported as seen exactly when it was stored before. */
  lemma RunReportsSeen(t: seq<nat>, hs: seq<nat>, i: nat)
    requires WellFormed(t) && i < |hs|
    ensures InsertAll(t, hs).misses[i] == 0 <==> hs[i] in Values(t) || StoredByRun(t, hs, i, hs[i])
  {
    var upto := hs[..i + 1];
    assert upto[..i] == hs[..i];
    RunPrefix(t, hs, i + 1);
    RunStores(t, hs[..i]);
    var before := InsertAll(t, hs[..i]);
    InsertCorrect(before.table, hs[i]);
    assert InsertAll(t, hs).misses[i] == Insert(before.table, hs[i]).miss;
    StoredByPrefix(t, hs, i, hs[i]);
  }

  // ----- doubling

  function Zeros(n: nat): seq<nat> {
    seq(n, _ => 0)
  }

  /** The new table after the old slots below upto have been reinserted. */
  function Reinsert(t: seq<nat>, upto: nat): (r: seq<nat>)
    requires 0 < |t| && upto <= |t|
    ensures |r| == 2 * |t|
  {
    if upto == 0 then Zeros(2 * |t|)
    else
      var r := Reinsert(t, upto - 1);
      if t[upto - 1] == 0 then r else Insert(r, t[upto - 1]).table
  }

  /** The loop of main visits the slots 0 .. size_mask - 1: one short of the table. */
  function Resized(t: seq<nat>): seq<nat>
    requires 0 < |t|
  {
    Reinsert(t, |t| - 1)
  }

  method Resize(bm: array<uint64>, ghost k: nat) returns (bmNew: array<uint64>)
    requires bm.Length == Pow2(k)
    ensures fresh(bmNew) && bmNew.Length == Pow2(k + 1) == 2 * bm.Length
    ensures bmNew[..] == Resized(bm[..])
  {
    var sizeMask := bm.Length - 1;
    var sizeMaskNew := (sizeMask + 1) * 2 - 1;
    bmNew := new uint64[sizeMaskNew + 1](_ => 0);
    assert bmNew[..] == Zeros(2 * bm.Length);
    for j := 0 to sizeMask
      invariant bmNew[..] == Reinsert(bm[..], j)
    {
      var h := bm[j];
      if h == 0 {
        continue;
      }
      var miss := HashInsert(h, bmNew, k + 1);
    }
  }

  ghost function Visited(t: seq<nat>, upto: nat): set<nat>
    requires upto <= |t|
  {
    set j | 0 <= j < upto && t[j] != 0 :: t[j]
  }

  lemma VisitedAll(t: seq<nat>)
    ensures Visited(t, |t|) == Values(t)
  {
  }

  /** The reinsertion of slot j, if it holds a value, does not give up. */
  predicate Kept(t: seq<nat>, j: nat)
    requires j < |t|
  {
    t[j] != 0 ==> Insert(Reinsert(t, j), t[j]).miss != -1
  }

  ghost predicate NoneLost(t: seq<nat>, upto: nat)
    requires upto <= |t|
  {
    forall j :: 0 <= j < upto ==> Kept(t, j)
  }

  lemma ZerosWellFormed(n: nat)
    requires n > 0
    ensures WellFormed(Zeros(n)) && Values(Zeros(n)) == {}
  {
  }

  lemma VisitedOneMore(t: seq<nat>, j: nat)
    requires j < |t|
    ensures Visited(t, j + 1) == if t[j] == 0 then Visited(t, j) else Visited(t, j) + {t[j]}
  {
  }

  /** Reinserting one value. */
  lemma ReinsertOne(before: seq<nat>, h: nat, seen: set<nat>)
    requires WellFormed(before) && h != 0 && Values(before) <= seen
    ensures WellFormed(Insert(before, h).table) && Values(Insert(before, h).table) <= seen + {h}
    ensures Insert(before, h).miss != -1 && Values(before) == seen ==> Values(Insert(before, h).table) == seen + {h}
  {
    InsertCorrect(before, h);
    if Stored(before, h) { assert h in Values(before); }
  }

  /** The new table is well-formed and holds nothing but visited values; all of them when none was lost. */
  lemma {:induction false} ReinsertCorrect(t: seq<nat>, upto: nat)
    requires 0 < |t| && upto <= |t|
    ensures WellFormed(Reinsert(t, upto))
    ensures Values(Reinsert(t, upto)) <= Visited(t, upto)
    ensures NoneLost(t, upto) ==> Values(Reinsert(t, upto)) == Visited(t, upto)
    decreases upto
  {
    if upto == 0 {
      ZerosWellFormed(2 * |t|);
    } else {
      var j := upto - 1;
      ReinsertCorrect(t, j);
      VisitedOneMore(t, j);
      assert NoneLost(t, upto) ==> NoneLost(t, j) && Kept(t, j);
      if t[j] != 0 { ReinsertOne(Reinsert(t, j), t[j], Visited(t, j)); }
    }
  }

  /** Slot q holds h and the doubling loses it: the slot is the last one, or the probe in the new table gives up. */
  ghost predicate LostAt(t: seq<nat>, q: nat, h: nat)
    requires q < |t|
  {
    t[q] == h && (q == |t| - 1 || GivesUp(Reinsert(t, q), h))
  }

  ghost predicate Drops(t: seq<nat>, h: nat) {
    exists q :: 0 <= q < |t| && LostAt(t, q, h)
  }

  /** Some slot below upto holds h, and its reinsertion does not give up. */
  ghost predicate Carried(t: seq<nat>, upto: nat, h: nat)
    requires upto <= |t|
  {
    exists q :: 0 <= q < upto && t[q] == h && !GivesUp(Reinsert(t, q), h)
  }

  lemma {:induction false} ReinsertStores(t: seq<nat>, upto: nat, h: nat)
    requires 0 < |t| && upto <= |t| && h != 0
    ensures Stored(Reinsert(t, upto), h) <==> Carried(t, upto, h)
    decreases upto
  {
    if upto > 0 {
      var j := upto - 1;
      ReinsertStores(t, j, h);
      assert Carried(t, upto, h) <==> Carried(t, j, h) || (t[j] == h && !GivesUp(Reinsert(t, j), h));
      if t[j] != 0 {
        ReinsertCorrect(t, j);
        InsertStores(Reinsert(t, j), t[j], h);
      }
    }
  }

  lemma InsertStores(t: seq<nat>, h: nat, v: nat)
    requires WellFormed(t) && v != 0
    ensures Stored(Insert(t, h).table, v) <==> Stored(t, v) || (v == h && !GivesUp(t, h))
  {
    InsertCorrect(t, h);
    assert Stored(t, v) <==> v in Values(t);
    assert Stored(Insert(t, h).table, v) <==> v in Values(Insert(t, h).table);
  }

  /** A doubling keeps exactly the stored hashes it does not drop. */
  lemma ResizedKeeps(t: seq<nat>, h: nat)
    requires WellFormed(t) && h != 0
    ensures Stored(Resized(t), h) <==> Stored(t, h) && !Drops(t, h)
  {
    ReinsertStores(t, |t| - 1, h);
    if q :| 0 <= q < |t| && t[q] == h {
      forall p | 0 <= p < |t| && p != q ensures t[p] != h {
        StoredOnce(t, q, p);
      }
      assert Drops(t, h) <==> LostAt(t, q, h);
    }
  }

  /** A probe path that reaches the end of the table leaves no hole in the last slot. */
  lemma PathFillsEnd(t: seq<nat>, p: nat, d: nat)
    requires p < |t| && t[p] != 0 && FoundAfter(t, p, d)
    ensures t[p] % |t| + d >= |t| - 1 ==> t[|t| - 1] != 0
  {
    var n, home := |t|, t[p] % |t|;
    if home + d >= n - 1 {
      var e := n - 1 - home;
      ModAdd(t[p], e, n);
      assert SlotOf(t, t[p], e) == n - 1;
    }
  }

  /** With an empty last slot no probe path wraps around the end of the table. */
  lemma NoWrap(t: seq<nat>, p: nat, d: nat)
    requires p < |t| && t[p] != 0 && t[|t| - 1] == 0 && FoundAfter(t, p, d)
    ensures t[p] % |t| + d == p
  {
    PathFillsEnd(t, p, d);
    ModAdd(t[p], d, |t|);
  }

  /** Every value reinserted so far sits, in its half of the new table, before slot j. */
  ghost predicate PlacedBefore(n: nat, new_: seq<nat>, j: nat)
    requires 0 < n
  {
    forall q :: 0 <= q < |new_| && new_[q] != 0 ==> q % n < j
  }

  /** Without wrapping, a reinserted value moves no further from its home than it was. */
  lemma ReinsertFinds(t: seq<nat>, j: nat, old_: seq<nat>)
    requires WellFormed(t) && t[|t| - 1] == 0 && j < |t| && t[j] != 0
    requires |old_| == 2 * |t| && PlacedBefore(|t|, old_, j) && WellFormed(old_) && !Stored(old_, t[j])
    ensures Insert(old_, t[j]).miss != -1
    ensures PlacedBefore(|t|, Insert(old_, t[j]).table, j + 1)
  {
    var n, h := |t|, t[j];
    assert Reachable(t, j);
    var d: nat :| FoundAfter(t, j, d);
    NoWrap(t, j, d);
    var e := ProbeStops(old_, h, 0);
    ModOfDouble(h + d, n);
    assert old_[SlotOf(old_, h, d)] == 0;
    ModAdd(h, e, n);
    ModOfDouble(h + e, n);
  }

  lemma NotVisitedBefore(t: seq<nat>, j: nat)
    requires WellFormed(t) && j < |t| && t[j] != 0
    ensures t[j] !in Visited(t, j)
  {
    forall i | 0 <= i < j ensures t[i] != t[j] {
      StoredOnce(t, j, i);
    }
  }

  lemma ReinsertStep(t: seq<nat>, j: nat)
    requires WellFormed(t) && t[|t| - 1] == 0 && j < |t| && PlacedBefore(|t|, Reinsert(t, j), j)
    ensures Kept(t, j)
    ensures PlacedBefore(|t|, Reinsert(t, j + 1), j + 1)
  {
    if t[j] != 0 {
      ReinsertCorrect(t, j);
      NotVisitedBefore(t, j);
      assert t[j] !in Values(Reinsert(t, j));
      ReinsertFinds(t, j, Reinsert(t, j));
    }
  }

  lemma PlacedAtFirst(t: seq<nat>)
    requires 0 < |t|
    ensures PlacedBefore(|t|, Reinsert(t, 0), 0)
  {
  }

  /** The slots below upto are reinserted, each no later than it was. */
  ghost predicate Intact(t: seq<nat>, upto: nat)
    requires upto <= |t|
  {
    0 < |t| && NoneLost(t, upto) && PlacedBefore(|t|, Reinsert(t, upto), upto)
  }

  lemma IntactOneMore(t: seq<nat>, j: nat)
    requires WellFormed(t) && t[|t| - 1] == 0 && j < |t| && Intact(t, j)
    ensures Intact(t, j + 1)
  {
    ReinsertStep(t, j);
  }

  lemma {:induction false} NothingLostIfLastEmpty(t: seq<nat>, upto: nat)
    requires WellFormed(t) && t[|t| - 1] == 0 && upto <= |t|
    ensures Intact(t, upto)
    decreases upto
  {
    if upto == 0 {
      PlacedAtFirst(t);
    } else {
      NothingLostIfLastEmpty(t, upto - 1);
      IntactOneMore(t, upto - 1);
    }
  }

  /**
   The doubling keeps the set of stored hashes exactly when the last slot of the old table is
   empty: a hash in the last slot is never reinserted, and without one nothing can overflow.
   */
  lemma ResizePreservesIff(t: seq<nat>)
    requires WellFormed(t)
    ensures WellFormed(Resized(t))
    ensures Values(Resized(t)) == Values(t) <==> t[|t| - 1] == 0
    ensures Values(Resized(t)) <= Values(t) - {t[|t| - 1]}
  {
    var n := |t| - 1;
    ReinsertCorrect(t, n);
    VisitedAll(t);
    assert Visited(t, n) <= Values(t);
    if t[n] == 0 {
      NothingLostIfLastEmpty(t, n);
      assert Visited(t, n) == Visited(t, |t|);
    } else {
      NotVisitedBefore(t, n);
      assert t[n] in Values(t);
    }
  }
}
