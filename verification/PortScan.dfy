/** Choosing a local UDP port: the reserved set and the wrap-around scan from a random start. */
module PortScan {
  import opened Basics

  /** One comma-separated item of ip_local_reserved_ports. */
  datatype Entry = Blank | Single(port: int) | Span(first: int, last: int)

  predicate Covers(e: Entry, p: int) {
    match e
    case Blank => false
    case Single(q) => p == q
    case Span(l, h) => l <= p <= h
  }

  /** The reserved set of _read_ephemeral: exactly the ports some item covers. */
  method ReservedPorts(entries: seq<Entry>) returns (skip: set<int>)
    ensures forall p :: p in skip <==> exists i :: 0 <= i < |entries| && Covers(entries[i], p)
  {
    skip := {};
    for i := 0 to |entries|
      invariant forall p :: p in skip <==> exists j :: 0 <= j < i && Covers(entries[j], p)
    {
      ghost var before := skip;
      match entries[i]
      case Blank =>
      case Single(q) => skip := skip + {q};
      case Span(l, h) =>
        var c := l;
        while c < h + 1
          invariant c <= h + 1 || c == l
          invariant forall p :: p in skip <==> p in before || l <= p < c
        {
          skip := skip + {c};
          c := c + 1;
        }
      assert forall p :: p in skip <==> p in before || Covers(entries[i], p);
    }
  }

  /** The port examined after off steps from start, wrapping past hi back to lo. */
  function PortAt(lo: int, hi: int, start: int, off: int): int {
    var port := start + off;
    if port > hi then port - (hi + 1) + lo else port
  }

  /** How many steps from start the scan needs to reach port p. */
  function OffsetOf(lo: int, hi: int, start: int, p: int): int {
    if p >= start then p - start else p + (hi + 1) - lo - start
  }

  /** One pass over the range examines every port of [lo, hi] exactly once. */
  lemma ScanIsPermutation(lo: int, hi: int, start: int)
    requires lo <= start <= hi
    ensures forall off :: 0 <= off < hi + 1 - lo ==> lo <= PortAt(lo, hi, start, off) <= hi
    ensures forall m, n :: 0 <= m < n < hi + 1 - lo ==> PortAt(lo, hi, start, m) != PortAt(lo, hi, start, n)
    ensures forall p :: lo <= p <= hi ==> 0 <= OffsetOf(lo, hi, start, p) < hi + 1 - lo
                                          && PortAt(lo, hi, start, OffsetOf(lo, hi, start, p)) == p
  {
  }

  /** The ports that the first n steps look up, in their order: those that are not reserved. */
  function Scan(lo: int, hi: int, start: int, skip: set<int>, n: nat): seq<int> {
    if n == 0 then []
    else
      var p := PortAt(lo, hi, start, n - 1);
      Scan(lo, hi, start, skip, n - 1) + if p in skip then [] else [p]
  }

  /** The offset of every port in s, and how they grow. */
  ghost predicate InScanOrder(lo: int, hi: int, start: int, s: seq<int>, n: int) {
    && (forall i :: 0 <= i < |s| ==> lo <= s[i] <= hi && OffsetOf(lo, hi, start, s[i]) < n)
    && forall i, j :: 0 <= i < j < |s| ==> OffsetOf(lo, hi, start, s[i]) < OffsetOf(lo, hi, start, s[j])
  }

  /** A scan looks up exactly the unreserved ports it has come by. */
  lemma {:induction false} ScanMember(lo: int, hi: int, start: int, skip: set<int>, n: nat, p: int)
    requires lo <= start <= hi && n <= hi + 1 - lo
    ensures p in Scan(lo, hi, start, skip, n) <==> lo <= p <= hi && p !in skip && OffsetOf(lo, hi, start, p) < n
    decreases n
  {
    if n > 0 {
      ScanMember(lo, hi, start, skip, n - 1, p);
      StepOffset(lo, hi, start, n - 1);
    }
  }

  /** It does so in order and without repetition. */
  lemma {:induction false} ScanInOrder(lo: int, hi: int, start: int, skip: set<int>, n: nat)
    requires lo <= start <= hi && n <= hi + 1 - lo
    ensures InScanOrder(lo, hi, start, Scan(lo, hi, start, skip, n), n)
    decreases n
  {
    if n > 0 {
      ScanInOrder(lo, hi, start, skip, n - 1);
      StepOffset(lo, hi, start, n - 1);
    }
  }

  lemma StepOffset(lo: int, hi: int, start: int, off: nat)
    requires lo <= start <= hi && off < hi + 1 - lo
    ensures var q := PortAt(lo, hi, start, off);
            lo <= q <= hi && forall p :: lo <= p <= hi ==> (OffsetOf(lo, hi, start, p) == off <==> p == q)
  {
  }

  ghost predicate NoRepeats(s: seq<int>) {
    forall i, j :: 0 <= i < j < |s| ==> s[i] != s[j]
  }

  /** The lookups are those of the first n steps. */
  lemma ScanEnds(lo: int, hi: int, start: int, skip: set<int>, n: nat, lookups: seq<int>)
    requires lo <= start <= hi && n <= hi + 1 - lo && lookups == Scan(lo, hi, start, skip, n)
    ensures NoRepeats(lookups) && InScanOrder(lo, hi, start, lookups, n)
    ensures forall p :: p in lookups <==> lo <= p <= hi && p !in skip && OffsetOf(lo, hi, start, p) < n
  {
    ScanInOrder(lo, hi, start, skip, n);
    forall p ensures p in lookups <==> lo <= p <= hi && p !in skip && OffsetOf(lo, hi, start, p) < n {
      ScanMember(lo, hi, start, skip, n, p);
    }
  }

  lemma WholeRange(lo: int, hi: int, start: int)
    requires lo <= start <= hi
    ensures forall p :: lo <= p <= hi ==> OffsetOf(lo, hi, start, p) < hi + 1 - lo
  {
  }

  /** All lookups but the last answered "taken"; the last one decides. */
  ghost predicate Answered(taken: int -> bool, lookups: seq<int>, port: Option<int>) {
    match port
    case None => forall i :: 0 <= i < |lookups| ==> taken(lookups[i])
    case Some(p) => lookups != [] && lookups[|lookups| - 1] == p && !taken(p)
                    && forall i :: 0 <= i < |lookups| - 1 ==> taken(lookups[i])
  }

  /** The result is the first free unreserved port in scan order. */
  ghost predicate FirstFree(lo: int, hi: int, start: int, skip: set<int>, taken: int -> bool, port: Option<int>) {
    match port
    case None => forall p :: lo <= p <= hi && p !in skip ==> taken(p)
    case Some(q) => lo <= q <= hi && q !in skip && !taken(q)
                    && forall p :: lo <= p <= hi && p !in skip && !taken(p) ==>
                         OffsetOf(lo, hi, start, q) <= OffsetOf(lo, hi, start, p)
  }

  lemma FirstFreeFound(lo: int, hi: int, start: int, skip: set<int>, taken: int -> bool, n: nat, lookups: seq<int>,
                       port: Option<int>)
    requires lo <= start <= hi && n <= hi + 1 - lo && lookups == Scan(lo, hi, start, skip, n)
    requires Answered(taken, lookups, port) && (port.None? ==> n == hi + 1 - lo)
    ensures FirstFree(lo, hi, start, skip, taken, port)
  {
    ScanEnds(lo, hi, start, skip, n, lookups);
    WholeRange(lo, hi, start);
    if port.Some? {
      assert port.value in lookups;
      forall p | lo <= p <= hi && p !in skip && !taken(p)
        ensures OffsetOf(lo, hi, start, port.value) <= OffsetOf(lo, hi, start, p)
      {
        assert p in lookups ==> p == port.value;
      }
    }
  }

  /**
   _get_udp_port.  taken(p) is the answer of the lookup made for p; since no port is looked
   up twice it may depend on the moment of the lookup.  None stands for EAGAIN.
   */
  method GetUdpPort(lo: int, hi: int, start: int, skip: set<int>, taken: int -> bool)
    returns (port: Option<int>, lookups: seq<int>)
    requires lo <= start <= hi
    ensures FirstFree(lo, hi, start, skip, taken, port)
    ensures Answered(taken, lookups, port) && NoRepeats(lookups)
    ensures exists n: nat :: n <= hi + 1 - lo && lookups == Scan(lo, hi, start, skip, n)
  {
    lookups := [];
    var off := 0;
    while off < hi + 1 - lo
      invariant 0 <= off <= hi + 1 - lo && lookups == Scan(lo, hi, start, skip, off)
      invariant Answered(taken, lookups, None)
    {
      var p := start + off;
      off := off + 1;
      if p > hi {
        p := p - (hi + 1) + lo;
      }
      if p in skip {
        continue;
      }
      lookups := lookups + [p];
      if !taken(p) {
        FirstFreeFound(lo, hi, start, skip, taken, off, lookups, Some(p));
        ScanEnds(lo, hi, start, skip, off, lookups);
        return Some(p), lookups;
      }
    }
    FirstFreeFound(lo, hi, start, skip, taken, off, lookups, None);
    ScanEnds(lo, hi, start, skip, off, lookups);
    port := None;
  }
}
