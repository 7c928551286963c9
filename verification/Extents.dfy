/** The extent map of a file as one list, with the rules insBlock and getBlock follow on it. */
module Extents {
  import opened Meta

  function Blocks(e: Ext): (s: seq<nat>)
    ensures |s| == e.nblks
  {
    seq(e.nblks, i requires 0 <= i => e.blkno + i)
  }

  /** The blocks of a file in file order. */
  function Flat(exts: seq<Ext>): seq<nat> {
    if exts == [] then [] else Flat(exts[..|exts| - 1]) + Blocks(exts[|exts| - 1])
  }

  /** de_off of every extent is the number of blocks mapped before it. */
  predicate Tiled(exts: seq<Ext>) {
    exts == [] ||
    var n := |exts| - 1;
    Tiled(exts[..n]) && exts[n].off == |Flat(exts[..n])| && exts[n].nblks > 0
  }

  predicate Hits(e: Ext, off: nat) {
    e.off <= off < e.off + e.nblks
  }

  /** Index of the first extent that maps `off`, or |exts|. */
  function FirstHit(exts: seq<Ext>, off: nat): (i: nat)
    ensures i <= |exts|
    ensures i < |exts| ==> Hits(exts[i], off)
    ensures forall j :: 0 <= j < i ==> !Hits(exts[j], off)
  {
    if exts == [] then 0
    else
      var i := FirstHit(exts[..|exts| - 1], off);
      if i < |exts| - 1 then i
      else if Hits(exts[|exts| - 1], off) then i else |exts|
  }

  /** Index of the first extent that ends where block `blkno` starts, or |exts|. */
  function FirstAdjacent(exts: seq<Ext>, blkno: nat): (i: nat)
    ensures i <= |exts|
    ensures i < |exts| ==> exts[i].End() == blkno
    ensures forall j :: 0 <= j < i ==> exts[j].End() != blkno
  {
    if exts == [] then 0
    else
      var i := FirstAdjacent(exts[..|exts| - 1], blkno);
      if i < |exts| - 1 then i
      else if exts[|exts| - 1].End() == blkno then i else |exts|
  }

  /** What getBlock finds for file block `off`. */
  function LookupExt(exts: seq<Ext>, off: nat): Option<nat> {
    var i := FirstHit(exts, off);
    if i < |exts| then Some(exts[i].blkno + (off - exts[i].off)) else None
  }

  /** What insBlock does: extend the first physically adjacent extent, else append. */
  function InsExt(exts: seq<Ext>, de: Ext): seq<Ext> {
    var i := FirstAdjacent(exts, de.blkno);
    if i < |exts|
    then exts[i := exts[i].(nblks := exts[i].nblks + de.nblks)]
    else exts + [de]
  }

  /** No extent but the last ends where `blkno` starts. */
  predicate OnlyLastAdjacent(exts: seq<Ext>, blkno: nat) {
    forall i :: 0 <= i < |exts| - 1 ==> exts[i].End() != blkno
  }

  /** What any extent map maps to. */
  ghost predicate Maps(exts: seq<Ext>, blks: seq<nat>) {
    && (forall off: nat :: off < |blks| ==> LookupExt(exts, off) == Some(blks[off]))
    && (forall off: nat :: off >= |blks| ==> LookupExt(exts, off) == None)
  }

  lemma {:induction false} HitAt(exts: seq<Ext>, off: nat, i: nat)
    requires i < |exts| && Hits(exts[i], off) && forall j :: 0 <= j < i ==> !Hits(exts[j], off)
    ensures LookupExt(exts, off) == Some(exts[i].blkno + (off - exts[i].off))
  {
    assert FirstHit(exts, off) == i;
  }

  lemma {:induction false} NoHit(exts: seq<Ext>, off: nat)
    requires forall j :: 0 <= j < |exts| ==> !Hits(exts[j], off)
    ensures LookupExt(exts, off) == None
  {
  }

  lemma {:induction false} AdjacentAt(exts: seq<Ext>, blkno: nat, i: nat)
    requires i <= |exts| && forall j :: 0 <= j < i ==> exts[j].End() != blkno
    requires i < |exts| ==> exts[i].End() == blkno
    ensures FirstAdjacent(exts, blkno) == i
  {
  }

  lemma {:induction false} InsMerges(exts: seq<Ext>, de: Ext, i: nat)
    requires i < |exts| && i == FirstAdjacent(exts, de.blkno)
    ensures InsExt(exts, de) == exts[i := exts[i].(nblks := exts[i].nblks + de.nblks)]
  {
  }

  lemma {:induction false} InsAppends(exts: seq<Ext>, de: Ext)
    requires FirstAdjacent(exts, de.blkno) == |exts|
    ensures InsExt(exts, de) == exts + [de]
  {
  }

  lemma {:induction false} TiledPrefix(exts: seq<Ext>, n: nat)
    requires Tiled(exts) && n <= |exts|
    ensures Tiled(exts[..n]) && |Flat(exts[..n])| <= |Flat(exts)|
    ensures n < |exts| ==> exts[n].off == |Flat(exts[..n])| && exts[n].nblks > 0
  {
    if n == |exts| {
      assert exts[..n] == exts;
    } else if n < |exts| - 1 {
      var init := exts[..|exts| - 1];
      TiledPrefix(init, n);
      assert init[..n] == exts[..n];
    }
  }

  /** A tiled extent list maps exactly its flat sequence: getBlock(off) is S[off], and nothing past the end. */
  lemma {:induction false} TiledMaps(exts: seq<Ext>)
    requires Tiled(exts)
    ensures Maps(exts, Flat(exts))
  {
    if exts != [] {
      var n := |exts| - 1;
      var init := exts[..n];
      TiledMaps(init);
      forall off: nat
        ensures LookupExt(exts, off) == if off < |Flat(exts)| then Some(Flat(exts)[off]) else None
      {
        assert LookupExt(init, off) == if off < |Flat(init)| then Some(Flat(init)[off]) else None;
      }
    }
  }

  /** Appending block run `de` at the logical end extends the flat sequence by exactly that run. */
  lemma {:induction false} InsExtAppends(exts: seq<Ext>, de: Ext)
    requires Tiled(exts) && de.off == |Flat(exts)| && de.nblks > 0
    requires OnlyLastAdjacent(exts, de.blkno)
    ensures Tiled(InsExt(exts, de))
    ensures Flat(InsExt(exts, de)) == Flat(exts) + Blocks(de)
  {
    hide FirstAdjacent, InsExt;
    var i := FirstAdjacent(exts, de.blkno);
    var r := InsExt(exts, de);
    var n := |r| - 1;
    if i == |exts| {
      InsAppends(exts, de);
      assert r[..n] == exts;
    } else {
      InsMerges(exts, de, i);
      assert i == n && r[..n] == exts[..n];
      assert Blocks(r[n]) == Blocks(exts[n]) + Blocks(de);
      assert Flat(r) == Flat(exts[..n]) + (Blocks(exts[n]) + Blocks(de));
      assert Flat(exts) == Flat(exts[..n]) + Blocks(exts[n]);
    }
  }

  /** Every extent but the last ends strictly below the logical end. */
  lemma EndsBefore(exts: seq<Ext>, i: nat)
    requires Tiled(exts) && i < |exts|
    ensures exts[i].off + exts[i].nblks <= |Flat(exts)|
    ensures i < |exts| - 1 ==> exts[i].off + exts[i].nblks < |Flat(exts)|
  {
    TiledPrefix(exts, i);
    TiledPrefix(exts, i + 1);
    assert exts[..i + 1][..i] == exts[..i];
    if i + 2 <= |exts| {
      TiledPrefix(exts, i + 2);
      assert exts[..i + 2][..i + 1] == exts[..i + 1];
    }
  }

  /** Merging into an extent that is not the last leaves the appended run unmapped or mapped elsewhere. */
  lemma WrongMerge(exts: seq<Ext>, de: Ext)
    requires Tiled(exts) && de.off == |Flat(exts)| && de.nblks > 0
    requires FirstAdjacent(exts, de.blkno) < |exts| - 1
    ensures LookupExt(InsExt(exts, de), de.off) != Some(de.blkno)
  {
    hide Tiled, Flat;
    var i := FirstAdjacent(exts, de.blkno);
    var r := InsExt(exts, de);
    forall j | 0 <= j < |exts| && j != i
      ensures !Hits(r[j], de.off)
    {
      EndsBefore(exts, j);
    }
    EndsBefore(exts, i);
  }

  /**
    * The merge test ignores de_off. It is right exactly when physical adjacency can only
    * hold for the last extent: otherwise the appended run becomes unreachable.
    */
  lemma MergeSoundExactly(exts: seq<Ext>, de: Ext)
    requires Tiled(exts) && de.off == |Flat(exts)| && de.nblks > 0
    ensures Maps(InsExt(exts, de), Flat(exts) + Blocks(de)) <==> OnlyLastAdjacent(exts, de.blkno)
  {
    hide Tiled, InsExt, LookupExt;
    if OnlyLastAdjacent(exts, de.blkno) {
      InsExtAppends(exts, de);
      TiledMaps(InsExt(exts, de));
    } else {
      var i := FirstAdjacent(exts, de.blkno);
      WrongMerge(exts, de);
      assert (Flat(exts) + Blocks(de))[de.off] == de.blkno;
    }
  }
}
