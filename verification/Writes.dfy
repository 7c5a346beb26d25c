/** Lists of writes to memory: the last write to a place wins. */
module Writes {
  import opened Basics
  import opened LittleEndian

  datatype Write = Write(at: nat, bytes: seq<byte>)

  /** The write leaves a range of memory alone. */
  predicate Spares(w: Write, at: nat, len: nat) {
    w.bytes == [] || len == 0 || w.at + |w.bytes| <= at || at + len <= w.at
  }

  predicate Apart(v: Write, w: Write) {
    Spares(v, w.at, |w.bytes|)
  }

  predicate Inside(ws: seq<Write>, size: nat) {
    forall k :: 0 <= k < |ws| ==> ws[k].at + |ws[k].bytes| <= size
  }

  /** Memory after the writes of a list, in order. */
  function Apply(mem: seq<byte>, ws: seq<Write>): (r: seq<byte>)
    requires Inside(ws, |mem|)
    ensures |r| == |mem|
  {
    if ws == [] then mem
    else
      var k := |ws| - 1;
      Stored(Apply(mem, ws[..k]), ws[k].at, ws[k].bytes)
  }

  lemma ApplyOneMore(mem: seq<byte>, ws: seq<Write>, w: Write)
    requires Inside(ws, |mem|) && w.at + |w.bytes| <= |mem|
    ensures Inside(ws + [w], |mem|)
    ensures Apply(mem, ws + [w]) == Stored(Apply(mem, ws), w.at, w.bytes)
  {
    assert (ws + [w])[..|ws|] == ws && (ws + [w])[|ws|] == w;
  }

  lemma StoredElsewhere(mem: seq<byte>, w: Write, at: nat, len: nat)
    requires w.at + |w.bytes| <= |mem| && at + len <= |mem| && Spares(w, at, len)
    ensures Stored(mem, w.at, w.bytes)[at..at + len] == mem[at..at + len]
  {
  }

  /** A range that the writes from the k-th on spare is as it was before them. */
  lemma {:induction false} RangeSince(mem: seq<byte>, ws: seq<Write>, k: nat, at: nat, len: nat)
    requires Inside(ws, |mem|) && k <= |ws| && at + len <= |mem|
    requires forall i :: k <= i < |ws| ==> Spares(ws[i], at, len)
    ensures Apply(mem, ws)[at..at + len] == Apply(mem, ws[..k])[at..at + len]
    decreases |ws|
  {
    if k < |ws| {
      var n := |ws| - 1;
      RangeSince(mem, ws[..n], k, at, len);
      assert ws[..n][..k] == ws[..k];
      StoredElsewhere(Apply(mem, ws[..n]), ws[n], at, len);
    } else {
      assert ws[..k] == ws;
    }
  }

  lemma JustWritten(mem: seq<byte>, before: seq<Write>, w: Write)
    requires Inside(before, |mem|) && w.at + |w.bytes| <= |mem|
    ensures Inside(before + [w], |mem|)
    ensures Apply(mem, before + [w])[w.at..w.at + |w.bytes|] == w.bytes
  {
    ApplyOneMore(mem, before, w);
    StoredThere(Apply(mem, before), w.at, w.bytes);
  }

  lemma StoredThere(mem: seq<byte>, at: nat, bs: seq<byte>)
    requires at + |bs| <= |mem|
    ensures Stored(mem, at, bs)[at..at + |bs|] == bs
  {
  }

  /** A write that no later one overlaps is what memory ends up holding. */
  lemma LastWriteWins(mem: seq<byte>, ws: seq<Write>, k: nat)
    requires Inside(ws, |mem|) && k < |ws|
    requires forall i :: k < i < |ws| ==> Apart(ws[i], ws[k])
    ensures Apply(mem, ws)[ws[k].at..ws[k].at + |ws[k].bytes|] == ws[k].bytes
  {
    var w := ws[k];
    assert forall i :: k < i < |ws| ==> Apart(ws[i], w);
    RangeSince(mem, ws, k + 1, w.at, |w.bytes|);
    assert ws[..k + 1] == ws[..k] + [w];
    JustWritten(mem, ws[..k], w);
  }

  // ----- patches

  /** What one relocation writes: a jump stub, then a site in the code; either may be empty. */
  datatype Patch = Patch(stub: Write, site: Write)

  /** The writes of a list of patches. */
  function Flat(ps: seq<Patch>): (ws: seq<Write>)
    ensures |ws| == 2 * |ps|
  {
    if ps == [] then [] else Flat(ps[..|ps| - 1]) + [ps[|ps| - 1].stub, ps[|ps| - 1].site]
  }

  lemma {:induction false} FlatAt(ps: seq<Patch>, k: nat)
    requires k < 2 * |ps|
    ensures Flat(ps)[k] == if k % 2 == 0 then ps[k / 2].stub else ps[k / 2].site
    decreases |ps|
  {
    var n := |ps| - 1;
    if k < 2 * n { FlatAt(ps[..n], k); }
  }

  /** Sites lie in the text and stubs between jumpAt and the end of the mapping. */
  predicate Placed(p: Patch, textSize: nat, jumpAt: nat, size: nat) {
    && p.site.at + |p.site.bytes| <= textSize
    && jumpAt <= p.stub.at && p.stub.at + |p.stub.bytes| <= size
  }

  predicate AllPlaced(ps: seq<Patch>, textSize: nat, jumpAt: nat, size: nat) {
    textSize <= jumpAt <= size && forall i :: 0 <= i < |ps| ==> Placed(ps[i], textSize, jumpAt, size)
  }

  lemma FlatIsInside(ps: seq<Patch>, textSize: nat, jumpAt: nat, size: nat)
    requires AllPlaced(ps, textSize, jumpAt, size)
    ensures Inside(Flat(ps), size)
  {
    forall k | 0 <= k < |Flat(ps)| ensures Flat(ps)[k].at + |Flat(ps)[k].bytes| <= size { FlatAt(ps, k); }
  }

  /** Memory after all patches. */
  function Patched(mem: seq<byte>, ps: seq<Patch>, textSize: nat, jumpAt: nat): (r: seq<byte>)
    requires AllPlaced(ps, textSize, jumpAt, |mem|)
    ensures |r| == |mem|
  {
    FlatIsInside(ps, textSize, jumpAt, |mem|);
    Apply(mem, Flat(ps))
  }

  /** A site that no later one overlaps stays as it was patched. */
  lemma SiteStays(mem: seq<byte>, ps: seq<Patch>, textSize: nat, jumpAt: nat, i: nat, m: seq<byte>, w: Write)
    requires AllPlaced(ps, textSize, jumpAt, |mem|) && i < |ps| && w == ps[i].site
    requires forall k :: i < k < |ps| ==> Apart(ps[k].site, w)
    requires m == Patched(mem, ps, textSize, jumpAt)
    ensures w.at + |w.bytes| <= |m| && m[w.at..w.at + |w.bytes|] == w.bytes
  {
    FlatIsInside(ps, textSize, jumpAt, |mem|);
    var ws := Flat(ps);
    FlatAt(ps, 2 * i + 1);
    forall k | 2 * i + 1 < k < |ws| ensures Apart(ws[k], ps[i].site) { FlatAt(ps, k); }
    LastWriteWins(mem, ws, 2 * i + 1);
  }

  /** So does a stub. */
  lemma StubStays(mem: seq<byte>, ps: seq<Patch>, textSize: nat, jumpAt: nat, i: nat, m: seq<byte>, w: Write)
    requires AllPlaced(ps, textSize, jumpAt, |mem|) && i < |ps| && w == ps[i].stub
    requires forall k :: i < k < |ps| ==> Apart(ps[k].stub, w)
    requires m == Patched(mem, ps, textSize, jumpAt)
    ensures w.at + |w.bytes| <= |m| && m[w.at..w.at + |w.bytes|] == w.bytes
  {
    FlatIsInside(ps, textSize, jumpAt, |mem|);
    var ws := Flat(ps);
    FlatAt(ps, 2 * i);
    forall k | 2 * i < k < |ws| ensures Apart(ws[k], ps[i].stub) { FlatAt(ps, k); }
    LastWriteWins(mem, ws, 2 * i);
  }

  /** Below the stubs only sites change. */
  lemma OthersStay(mem: seq<byte>, ps: seq<Patch>, textSize: nat, jumpAt: nat, at: nat, len: nat)
    requires AllPlaced(ps, textSize, jumpAt, |mem|) && at + len <= jumpAt
    requires forall i :: 0 <= i < |ps| ==> Spares(ps[i].site, at, len)
    ensures Patched(mem, ps, textSize, jumpAt)[at..at + len] == mem[at..at + len]
  {
    FlatIsInside(ps, textSize, jumpAt, |mem|);
    var ws := Flat(ps);
    forall k | 0 <= k < |ws| ensures Spares(ws[k], at, len) { FlatAt(ps, k); }
    RangeSince(mem, ws, 0, at, len);
    assert ws[..0] == [];
  }

  function PatchOnce(mem: seq<byte>, p: Patch): (r: seq<byte>)
    requires p.stub.at + |p.stub.bytes| <= |mem| && p.site.at + |p.site.bytes| <= |mem|
    ensures |r| == |mem|
  {
    Stored(Stored(mem, p.stub.at, p.stub.bytes), p.site.at, p.site.bytes)
  }

  lemma FlatOneMore(ps: seq<Patch>, p: Patch)
    ensures Flat(ps + [p]) == Flat(ps) + [p.stub] + [p.site]
  {
    assert (ps + [p])[..|ps|] == ps;
  }

  lemma TwoMore(mem: seq<byte>, ws: seq<Write>, v: Write, w: Write)
    requires Inside(ws, |mem|) && v.at + |v.bytes| <= |mem| && w.at + |w.bytes| <= |mem|
    ensures Inside(ws + [v] + [w], |mem|)
    ensures Apply(mem, ws + [v] + [w]) == Stored(Stored(Apply(mem, ws), v.at, v.bytes), w.at, w.bytes)
  {
    ApplyOneMore(mem, ws, v);
    ApplyOneMore(mem, ws + [v], w);
  }

  /** One patch more is two writes more. */
  lemma PatchOneMore(mem: seq<byte>, ps: seq<Patch>, p: Patch, textSize: nat, jumpAt: nat)
    requires AllPlaced(ps, textSize, jumpAt, |mem|) && Placed(p, textSize, jumpAt, |mem|)
    ensures AllPlaced(ps + [p], textSize, jumpAt, |mem|)
    ensures Patched(mem, ps + [p], textSize, jumpAt) == PatchOnce(Patched(mem, ps, textSize, jumpAt), p)
  {
    FlatIsInside(ps, textSize, jumpAt, |mem|);
    FlatOneMore(ps, p);
    TwoMore(mem, Flat(ps), p.stub, p.site);
  }
}
