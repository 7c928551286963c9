/** The two-level extent map of a dinode: direct extents, then a chain of indirect blocks. */
module ExtMap {
  import opened Meta
  import opened Volume

  /** Number of indirect blocks behind a map of `n` extents. */
  function ChainLen(n: nat): nat {
    if n <= MAX_DINODE_DIRECT then 0 else (n - MAX_DINODE_DIRECT + MAX_INDEXT - 1) / MAX_INDEXT
  }

  /** Index of the first extent kept in chain block `k`. */
  function ChainBase(k: nat): nat {
    MAX_DINODE_DIRECT + MAX_INDEXT * k
  }

  /** Chain block `k` links to the next one and holds its share of the extents: all 20 unless it is last. */
  predicate ChainBlk(blocks: seq<Block>, exts: seq<Ext>, chain: seq<nat>, k: nat)
    requires k < |chain| && ChainBase(k) < |exts|
  {
    && chain[k] < |blocks|
    && blocks[chain[k]].IndBlk?
    && var ie := blocks[chain[k]].ie;
    && ie.next == (if k + 1 < |chain| then chain[k + 1] else TARBLK_NONE)
    && ie.num == Min(MAX_INDEXT, |exts| - ChainBase(k))
    && |ie.dext| == MAX_INDEXT
    && ie.dext[..ie.num] == exts[ChainBase(k)..ChainBase(k) + ie.num]
  }

  /** Dinode `d` and the chain blocks on disk hold the extent list `exts`. */
  predicate ExtRep(blocks: seq<Block>, d: Dinode, exts: seq<Ext>, chain: seq<nat>) {
    && |d.direct| == MAX_DINODE_DIRECT
    && |chain| == ChainLen(|exts|)
    && d.nExtents == (if |exts| <= MAX_DINODE_DIRECT then |exts| else MAX_DINODE_DIRECT + |chain|)
    && (var n := Min(MAX_DINODE_DIRECT, |exts|); d.direct[..n] == exts[..n])
    && (|chain| > 0 ==> d.rootIndExt == chain[0])
    && (forall k :: 0 <= k < |chain| ==> ChainBlk(blocks, exts, chain, k))
  }

  /** The chain of inode `ino` is exactly the blocks tagged Chain(ino, _): no block repeats, so it has no cycle. */
  predicate ChainOwned(v: Vol, ino: nat, chain: seq<nat>) {
    && (forall k :: 0 <= k < |chain| ==> chain[k] < |v.owner| && v.owner[chain[k]] == Chain(ino, k))
    && (forall b :: 0 <= b < |v.owner| ==> v.owner[b].Chain? && v.owner[b].ino == ino ==>
          v.owner[b].k < |chain| && chain[v.owner[b].k] == b)
  }

  lemma ChainCount(n: nat)
    ensures n > MAX_DINODE_DIRECT ==>
              && ChainBase(ChainLen(n) - 1) < n <= ChainBase(ChainLen(n))
              && ChainLen(n) > 0
    ensures n % MAX_INDEXT != 17 && n > MAX_DINODE_DIRECT ==> ChainLen(n + 1) == ChainLen(n)
    ensures n >= MAX_DINODE_DIRECT && n == ChainBase(ChainLen(n)) ==> ChainLen(n + 1) == ChainLen(n) + 1
    ensures n > MAX_DINODE_DIRECT && n < ChainBase(ChainLen(n)) ==> ChainLen(n + 1) == ChainLen(n)
  {
  }

  lemma ChainBaseBound(n: nat, k: nat)
    requires k < ChainLen(n)
    ensures ChainBase(k) < n
  {
  }

  // ----- what a reader of the map meets

  lemma DirectRead(blocks: seq<Block>, d: Dinode, exts: seq<Ext>, chain: seq<nat>)
    requires ExtRep(blocks, d, exts, chain)
    ensures var n := Min(d.nExtents, MAX_DINODE_DIRECT);
            n == Min(|exts|, MAX_DINODE_DIRECT) <= |d.direct| && forall i :: 0 <= i < n ==> d.direct[i] == exts[i]
    ensures d.nExtents > MAX_DINODE_DIRECT <==> |exts| > MAX_DINODE_DIRECT
    ensures |exts| > MAX_DINODE_DIRECT ==> |chain| > 0 && d.rootIndExt == chain[0]
  {
    ChainCount(|exts|);
    var n := Min(d.nExtents, MAX_DINODE_DIRECT);
    forall i | 0 <= i < n
      ensures d.direct[i] == exts[i]
    {
      assert d.direct[..n][i] == exts[..n][i];
    }
  }

  /** Chain block `k` holds the extents from ChainBase(k) on, up to the next block's or the last. */
  lemma ChainRead(blocks: seq<Block>, d: Dinode, exts: seq<Ext>, chain: seq<nat>, k: nat)
    requires ExtRep(blocks, d, exts, chain) && k < |chain| && TARBLK_NONE !in chain
    ensures ChainBase(k) < |exts| && ChainBlk(blocks, exts, chain, k)
    ensures chain[k] < |blocks| && blocks[chain[k]].IndBlk?
    ensures var ie := blocks[chain[k]].ie;
            && ie.num <= |ie.dext| && ChainBase(k) + ie.num <= |exts|
            && (forall i :: 0 <= i < ie.num ==> ie.dext[i] == exts[ChainBase(k) + i])
            && (ie.next == TARBLK_NONE <==> k == |chain| - 1)
            && (if k < |chain| - 1 then ie.next == chain[k + 1] && ChainBase(k) + ie.num == ChainBase(k + 1) < |exts|
                else ChainBase(k) + ie.num == |exts|)
  {
    ChainCount(|exts|);
    ChainBaseBound(|exts|, k);
    assert ChainBlk(blocks, exts, chain, k);
    var ie := blocks[chain[k]].ie;
    forall i | 0 <= i < ie.num
      ensures ie.dext[i] == exts[ChainBase(k) + i]
    {
      assert ie.dext[..ie.num][i] == exts[ChainBase(k)..ChainBase(k) + ie.num][i];
    }
    if k < |chain| - 1 {
      ChainBaseBound(|exts|, k + 1);
      assert chain[k + 1] in chain;
    }
  }

  // ----- the six ways insBlock changes the map

  lemma RepMergeDirect(blocks: seq<Block>, d: Dinode, exts: seq<Ext>, chain: seq<nat>, i: nat, e: Ext)
    requires ExtRep(blocks, d, exts, chain) && i < Min(MAX_DINODE_DIRECT, |exts|)
    ensures ExtRep(blocks, d.(direct := d.direct[i := e]), exts[i := e], chain)
  {
    var exts' := exts[i := e];
    forall k | 0 <= k < |chain|
      ensures ChainBlk(blocks, exts', chain, k)
    {
      assert ChainBlk(blocks, exts, chain, k);
      var num := blocks[chain[k]].ie.num;
      assert exts'[ChainBase(k)..ChainBase(k) + num] == exts[ChainBase(k)..ChainBase(k) + num];
    }
  }

  lemma RepPushDirect(blocks: seq<Block>, d: Dinode, exts: seq<Ext>, chain: seq<nat>, e: Ext)
    requires ExtRep(blocks, d, exts, chain) && |exts| < MAX_DINODE_DIRECT
    ensures ExtRep(blocks, d.(direct := d.direct[|exts| := e], nExtents := d.nExtents + 1), exts + [e], chain)
  {
    var direct := d.direct[|exts| := e];
    var n := |exts| + 1;
    assert d.direct[..|exts|] == exts;
    assert direct[..n] == exts + [e];
  }

  /** Writing a chain block leaves the other chain blocks alone. */
  lemma ChainBlkKept(blocks: seq<Block>, exts: seq<Ext>, chain: seq<nat>, k: nat, b: nat, x: Block, exts': seq<Ext>)
    requires k < |chain| && ChainBase(k) < |exts| && ChainBlk(blocks, exts, chain, k)
    requires b < |blocks| && chain[k] != b && |exts'| >= |exts|
    requires Min(MAX_INDEXT, |exts| - ChainBase(k)) == Min(MAX_INDEXT, |exts'| - ChainBase(k))
    requires var num := Min(MAX_INDEXT, |exts| - ChainBase(k));
             exts'[ChainBase(k)..ChainBase(k) + num] == exts[ChainBase(k)..ChainBase(k) + num]
    ensures ChainBlk(blocks[b := x], exts', chain, k)
  {
  }

  lemma RepMergeChain(blocks: seq<Block>, d: Dinode, exts: seq<Ext>, chain: seq<nat>, k: nat, i: nat, e: Ext)
    requires ExtRep(blocks, d, exts, chain)
    requires k < |chain| && i < Min(MAX_INDEXT, |exts| - ChainBase(k))
    requires forall j :: 0 <= j < |chain| && j != k ==> chain[j] != chain[k]
    requires ChainBase(k) < |exts| && ChainBlk(blocks, exts, chain, k)
    ensures ExtRep(blocks[chain[k] := IndBlk(blocks[chain[k]].ie.(dext := blocks[chain[k]].ie.dext[i := e]))],
                   d, exts[ChainBase(k) + i := e], chain)
  {
    var ie := blocks[chain[k]].ie;
    var x := IndBlk(ie.(dext := ie.dext[i := e]));
    var exts' := exts[ChainBase(k) + i := e];
    var blocks' := blocks[chain[k] := x];
    var n := MAX_DINODE_DIRECT;
    assert exts'[..n] == exts[..n];
    forall j | 0 <= j < |chain|
      ensures ChainBlk(blocks', exts', chain, j)
    {
      assert ChainBlk(blocks, exts, chain, j);
      if j != k {
        var num := blocks[chain[j]].ie.num;
        assert exts'[ChainBase(j)..ChainBase(j) + num] == exts[ChainBase(j)..ChainBase(j) + num];
        ChainBlkKept(blocks, exts, chain, j, chain[k], x, exts');
      } else {
        assert x.ie.dext[..ie.num] == ie.dext[..ie.num][i := e];
        assert exts'[ChainBase(k)..ChainBase(k) + ie.num] == exts[ChainBase(k)..ChainBase(k) + ie.num][i := e];
      }
    }
  }

  lemma RepPushChain(blocks: seq<Block>, d: Dinode, exts: seq<Ext>, chain: seq<nat>, e: Ext)
    requires ExtRep(blocks, d, exts, chain) && |chain| > 0
    requires forall j :: 0 <= j < |chain| - 1 ==> chain[j] != chain[|chain| - 1]
    requires |exts| < ChainBase(|chain|)
    ensures ChainBlk(blocks, exts, chain, |chain| - 1)
    ensures var last := chain[|chain| - 1];
            var ie := blocks[last].ie;
            && ie.num < MAX_INDEXT
            && ExtRep(blocks[last := IndBlk(ie.(dext := ie.dext[ie.num := e], num := ie.num + 1))],
                      d, exts + [e], chain)
  {
    var m := |chain| - 1;
    ChainCount(|exts|);
    assert ChainBlk(blocks, exts, chain, m);
    var ie := blocks[chain[m]].ie;
    var x := IndBlk(ie.(dext := ie.dext[ie.num := e], num := ie.num + 1));
    var exts' := exts + [e];
    var blocks' := blocks[chain[m] := x];
    assert exts'[..MAX_DINODE_DIRECT] == exts[..MAX_DINODE_DIRECT];
    forall j | 0 <= j < |chain|
      ensures ChainBlk(blocks', exts', chain, j)
    {
      assert ChainBlk(blocks, exts, chain, j);
      if j != m {
        var num := blocks[chain[j]].ie.num;
        assert exts'[ChainBase(j)..ChainBase(j) + num] == exts[ChainBase(j)..ChainBase(j) + num];
        ChainBlkKept(blocks, exts, chain, j, chain[m], x, exts');
      } else {
        assert x.ie.dext[..ie.num + 1] == ie.dext[..ie.num] + [e];
        assert exts'[ChainBase(m)..ChainBase(m) + ie.num + 1] == exts[ChainBase(m)..ChainBase(m) + ie.num] + [e];
      }
    }
  }

  /** A chain block that was just allocated becomes the only one. */
  lemma RepFirstChain(blocks: seq<Block>, d: Dinode, exts: seq<Ext>, chain: seq<nat>, b: nat, ie: IndExt, e: Ext)
    requires ExtRep(blocks, d, exts, chain) && |exts| == MAX_DINODE_DIRECT && b < |blocks|
    requires ie.next == TARBLK_NONE && ie.num == 1 && |ie.dext| == MAX_INDEXT && ie.dext[0] == e
    ensures ExtRep(blocks[b := IndBlk(ie)], d.(rootIndExt := b, nExtents := d.nExtents + 1), exts + [e], [b])
  {
    var exts' := exts + [e];
    assert chain == [];
    assert exts'[..MAX_DINODE_DIRECT] == exts;
    assert exts'[ChainBase(0)..ChainBase(0) + 1] == [e];
    assert ie.dext[..1] == [e];
    assert ChainBlk(blocks[b := IndBlk(ie)], exts', [b], 0);
  }

  /** A chain block that was just allocated is linked behind a full last one. */
  lemma RepGrowChain(blocks: seq<Block>, d: Dinode, exts: seq<Ext>, chain: seq<nat>, b: nat, ie: IndExt, e: Ext)
    requires ExtRep(blocks, d, exts, chain) && |chain| > 0 && |exts| == ChainBase(|chain|)
    requires b < |blocks| && b !in chain
    requires forall j :: 0 <= j < |chain| - 1 ==> chain[j] != chain[|chain| - 1]
    requires ie.next == TARBLK_NONE && ie.num == 1 && |ie.dext| == MAX_INDEXT && ie.dext[0] == e
    ensures ChainBlk(blocks, exts, chain, |chain| - 1)
    ensures var last := chain[|chain| - 1];
            ExtRep(blocks[last := IndBlk(blocks[last].ie.(next := b))][b := IndBlk(ie)],
                   d.(nExtents := d.nExtents + 1), exts + [e], chain + [b])
  {
    var m := |chain| - 1;
    ChainCount(|exts|);
    assert ChainBlk(blocks, exts, chain, m);
    var x := IndBlk(blocks[chain[m]].ie.(next := b));
    var blocks' := blocks[chain[m] := x][b := IndBlk(ie)];
    var exts' := exts + [e];
    var chain' := chain + [b];
    assert exts'[..MAX_DINODE_DIRECT] == exts[..MAX_DINODE_DIRECT];
    forall j | 0 <= j < |chain'|
      ensures ChainBlk(blocks', exts', chain', j)
    {
      if j == |chain| {
        assert exts'[ChainBase(j)..ChainBase(j) + 1] == [e];
        assert ie.dext[..1] == [e];
      } else {
        assert ChainBlk(blocks, exts, chain, j);
        assert chain[j] in chain;
        var num := blocks[chain[j]].ie.num;
        assert exts'[ChainBase(j)..ChainBase(j) + num] == exts[ChainBase(j)..ChainBase(j) + num];
      }
    }
  }

  /** A block issued for the chain is new to it. */
  lemma ChainOwnedGrows(v: Vol, v': Vol, ino: nat, chain: seq<nat>, b: nat)
    requires |v.owner| == |v.blocks| && |v'.owner| == |v'.blocks|
    requires ChainOwned(v, ino, chain) && Issued(v, v', IEXMGR, b, Chain(ino, |chain|))
    ensures b !in chain && ChainOwned(v', ino, chain + [b])
  {
  }

  lemma ChainDistinct(v: Vol, ino: nat, chain: seq<nat>, k: nat)
    requires SpaceOk(v) && ChainOwned(v, ino, chain) && k < |chain|
    ensures forall j :: 0 <= j < |chain| && j != k ==> chain[j] != chain[k]
    ensures v.org <= chain[k] < |v.blocks| && v.owner[chain[k]] == Chain(ino, k)
  {
  }

  lemma RepShape(blocks: seq<Block>, d: Dinode, exts: seq<Ext>, chain: seq<nat>)
    requires ExtRep(blocks, d, exts, chain)
    ensures |chain| == ChainLen(|exts|) && |d.direct| == MAX_DINODE_DIRECT
    ensures forall k :: 0 <= k < |chain| ==>
              && chain[k] < |blocks| && ChainBase(k) < |exts| && blocks[chain[k]].IndBlk?
              && blocks[chain[k]].ie.num == Min(MAX_INDEXT, |exts| - ChainBase(k))
              && |blocks[chain[k]].ie.dext| == MAX_INDEXT
  {
    forall k | 0 <= k < |chain|
      ensures && chain[k] < |blocks| && ChainBase(k) < |exts| && blocks[chain[k]].IndBlk?
              && blocks[chain[k]].ie.num == Min(MAX_INDEXT, |exts| - ChainBase(k))
              && |blocks[chain[k]].ie.dext| == MAX_INDEXT
    {
      assert ChainBase(k) < |exts| && ChainBlk(blocks, exts, chain, k);
    }
  }

  /** The map does not depend on the other fields of the dinode. */
  lemma RepAttrs(blocks: seq<Block>, d: Dinode, d': Dinode, exts: seq<Ext>, chain: seq<nat>)
    requires ExtRep(blocks, d, exts, chain)
    requires d'.nExtents == d.nExtents && d'.direct == d.direct && d'.rootIndExt == d.rootIndExt
    ensures ExtRep(blocks, d', exts, chain)
  {
  }

  /** A dinode without extents maps nothing, whatever is on disk. */
  lemma RepEmpty(blocks: seq<Block>, d: Dinode)
    requires |d.direct| == MAX_DINODE_DIRECT && d.nExtents == 0
    ensures ExtRep(blocks, d, [], [])
  {
    assert d.direct[..0] == [];
  }

  lemma RepNoChain(blocks: seq<Block>, blocks': seq<Block>, d: Dinode, exts: seq<Ext>)
    requires ExtRep(blocks, d, exts, [])
    ensures ExtRep(blocks', d, exts, [])
  {
  }

  lemma ChainOwnedSame(v: Vol, v': Vol, ino: nat, chain: seq<nat>)
    requires ChainOwned(v, ino, chain) && v'.owner == v.owner
    ensures ChainOwned(v', ino, chain)
  {
  }

  lemma RepIssued(v: Vol, v': Vol, d: Dinode, exts: seq<Ext>, chain: seq<nat>)
    requires |v.owner| == |v.blocks| && |v'.owner| == |v'.blocks|
    requires ExtRep(v.blocks, d, exts, chain)
    requires |v'.blocks| >= |v.blocks|
    requires forall c :: 0 <= c < |v.blocks| ==> v'.blocks[c] == v.blocks[c]
    ensures ExtRep(v'.blocks, d, exts, chain)
  {
    forall k | 0 <= k < |chain|
      ensures ChainBlk(v'.blocks, exts, chain, k)
    {
      assert ChainBlk(v.blocks, exts, chain, k);
    }
  }

  /** The map is untouched by steps that leave the inode's chain blocks alone. */
  lemma RepFrame(v: Vol, v': Vol, t: set<Class>, ino: nat, d: Dinode, exts: seq<Ext>, chain: seq<nat>)
    requires Frame(v, v', t) && KChain(ino) !in t
    requires ExtRep(v.blocks, d, exts, chain) && ChainOwned(v, ino, chain)
    ensures ExtRep(v'.blocks, d, exts, chain) && ChainOwned(v', ino, chain)
  {
    forall k | 0 <= k < |chain|
      ensures chain[k] < |v'.owner| && v'.owner[chain[k]] == Chain(ino, k) && v'.blocks[chain[k]] == v.blocks[chain[k]]
    {
      assert v.owner[chain[k]] == Chain(ino, k);
    }
    forall k | 0 <= k < |chain|
      ensures ChainBlk(v'.blocks, exts, chain, k)
    {
      assert ChainBlk(v.blocks, exts, chain, k);
    }
  }
}
