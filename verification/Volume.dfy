/** The image as blocks with owners: who each block belongs to, and what a step may touch. */
module Volume {
  import opened Meta

  /** What a block is used for. Free(m) is an unissued block of allocator m. */
  datatype Owner =
    | Tar
    | Free(m: nat)
    | Dino(ino: nat)
    | DirData(ino: nat, k: nat)
    | Chain(ino: nat, k: nat)

  const DIRMGR: nat := 0
  const IEXMGR: nat := 1
  const DINODEMGR: nat := 2
  const NOMGR: nat := 3

  function MgrOf(o: Owner): nat {
    match o
    case DirData(_, _) => DIRMGR
    case Chain(_, _) => IEXMGR
    case Dino(_) => DINODEMGR
    case _ => NOMGR
  }

  /** The unissued tail lo .. hi of an allocator's newest bulk. */
  datatype Pool = Pool(lo: nat, hi: nat)

  datatype Vol = Vol(blocks: seq<Block>, owner: seq<Owner>, pools: seq<Pool>, org: nat)

  /** The list head an allocator keeps for its pool. */
  function Head(p: Pool): nat {
    if p.lo < p.hi then p.lo else TARBLK_NONE
  }

  function NextFree(b: nat, hi: nat): nat {
    if b + 1 == hi then TARBLK_NONE else b + 1
  }

  /** Pool m holds exactly the blocks tagged Free(m), linked in order, above all it has issued. */
  predicate PoolOk(v: Vol, m: nat)
    requires m < |v.pools| && |v.owner| == |v.blocks|
  {
    var p := v.pools[m];
    && p.lo <= p.hi <= |v.blocks|
    && (forall b :: p.lo <= b < p.hi ==> v.owner[b] == Free(m) && v.blocks[b] == FreeBlk(NextFree(b, p.hi)))
    && (forall b :: 0 <= b < |v.owner| && v.owner[b] == Free(m) ==> p.lo <= b)
    && (forall b :: 0 <= b < |v.owner| && (MgrOf(v.owner[b]) == m || v.owner[b] == Free(m)) ==> b < p.hi)
  }

  predicate SpaceOk(v: Vol) {
    && |v.owner| == |v.blocks| <= TARBLK_NONE
    && |v.pools| == 3
    && 0 < v.org <= |v.blocks|
    && (|v.blocks| - v.org) % BULKS == 0
    && (forall b :: 0 <= b < |v.owner| ==> (v.owner[b] == Tar <==> b < v.org))
    && (forall b :: 0 <= b < |v.owner| ==> v.owner[b].Free? ==> v.owner[b].m < 3)
    && PoolOk(v, DIRMGR) && PoolOk(v, IEXMGR) && PoolOk(v, DINODEMGR)
  }

  lemma SpaceShape(v: Vol)
    requires SpaceOk(v)
    ensures |v.pools| == 3 && |v.owner| == |v.blocks|
  {
  }

  /** The block an allocator issues next. */
  function NextIssue(v: Vol, m: nat): nat
    requires m < |v.pools|
  {
    if v.pools[m].lo < v.pools[m].hi then v.pools[m].lo else |v.blocks|
  }

  /** The volume after allocator m issued a block to owner `o`. */
  function Allocated(v: Vol, m: nat, o: Owner): Vol
    requires m < |v.pools| && |v.owner| == |v.blocks|
    requires v.pools[m].hi <= |v.blocks|
  {
    var p := v.pools[m];
    if p.lo < p.hi then
      v.(owner := v.owner[p.lo := o], pools := v.pools[m := Pool(p.lo + 1, p.hi)])
    else
      var n := |v.blocks|;
      v.(blocks := v.blocks + FreeBulk(n),
         owner := v.owner + [o] + seq(BULKS - 1, _ => Free(m)),
         pools := v.pools[m := Pool(n + 1, n + BULKS)])
  }

  /** A fresh bulk: BULKS free blocks starting at block n, linked in order. */
  function FreeBulk(n: nat): (r: seq<Block>)
    ensures |r| == BULKS
  {
    seq(BULKS, i requires 0 <= i => FreeBlk(NextFree(n + i, n + BULKS)))
  }

  // ----- what a step may touch

  datatype Class = KTar | KFree | KDino(ino: nat) | KDir(ino: nat) | KChain(ino: nat)

  function ClassOf(o: Owner): Class {
    match o
    case Tar => KTar
    case Free(_) => KFree
    case Dino(i) => KDino(i)
    case DirData(i, _) => KDir(i)
    case Chain(i, _) => KChain(i)
  }

  /** Only blocks of the classes in `t`, and free blocks, changed content or owner. */
  predicate Frame(v: Vol, v': Vol, t: set<Class>) {
    && |v.owner| == |v.blocks| <= |v'.blocks| == |v'.owner|
    && v.org == v'.org
    && (forall b :: 0 <= b < |v.owner| && ClassOf(v.owner[b]) !in t && ClassOf(v.owner[b]) != KFree ==>
          v'.owner[b] == v.owner[b] && v'.blocks[b] == v.blocks[b])
    && (forall b :: 0 <= b < |v'.owner| && ClassOf(v'.owner[b]) !in t && ClassOf(v'.owner[b]) != KFree ==>
          b < |v.owner| && v'.owner[b] == v.owner[b])
  }

  lemma FrameRefl(v: Vol, t: set<Class>)
    requires |v.owner| == |v.blocks|
    ensures Frame(v, v, t)
  {
  }

  lemma FrameTrans(v: Vol, v': Vol, v'': Vol, t: set<Class>, t': set<Class>)
    requires Frame(v, v', t) && Frame(v', v'', t')
    ensures Frame(v, v'', t + t')
  {
  }

  lemma FrameWeaken(v: Vol, v': Vol, t: set<Class>, t': set<Class>)
    requires Frame(v, v', t) && t <= t'
    ensures Frame(v, v', t')
  {
  }

  lemma FrameTwice(v: Vol, v': Vol, v'': Vol, t: set<Class>)
    requires Frame(v, v', t) && Frame(v', v'', t)
    ensures Frame(v, v'', t)
  {
  }

  /** What one allocation does, block by block. */
  predicate Issued(v: Vol, v': Vol, m: nat, b: nat, o: Owner)
    requires |v.owner| == |v.blocks| && |v'.owner| == |v'.blocks|
  {
    && v.org == v'.org && |v'.pools| == |v.pools|
    && v.org <= b < |v'.owner| && v'.owner[b] == o && v'.blocks[b].FreeBlk?
    && (b < |v.owner| ==> v.owner[b] == Free(m))
    && |v.blocks| <= |v'.blocks|
    && (|v'.blocks| == |v.blocks| || (b == |v.blocks| && |v'.blocks| == |v.blocks| + BULKS))
    && (forall c :: 0 <= c < |v.blocks| ==> v'.blocks[c] == v.blocks[c])
    && (forall c :: 0 <= c < |v'.owner| && c != b ==>
          v'.owner[c] == if c < |v.owner| then v.owner[c] else Free(m))
    && (forall k :: 0 <= k < |v.pools| && k != m ==> v'.pools[k] == v.pools[k])
  }

  lemma AllocatedIssues(v: Vol, m: nat, o: Owner)
    requires SpaceOk(v) && m < 3
    ensures Issued(v, Allocated(v, m, o), m, NextIssue(v, m), o)
  {
    assert PoolOk(v, m);
    if v.pools[m].lo < v.pools[m].hi {
      assert v.owner[v.pools[m].lo] == Free(m);
    } else {
      var n := |v.blocks|;
      assert Allocated(v, m, o).blocks[n] == FreeBulk(n)[0];
    }
  }

  lemma AllocatedOwnPool(v: Vol, m: nat, o: Owner)
    requires SpaceOk(v) && m < 3 && MgrOf(o) == m
    ensures PoolOk(Allocated(v, m, o), m)
  {
    assert PoolOk(v, m);
    hide SpaceOk;
    if v.pools[m].lo < v.pools[m].hi {
      hide FreeBulk, NextFree;
      assert v.owner[v.pools[m].lo] == Free(m);
    } else {
      BulkPool(v, m, o);
    }
  }

  /** A fresh bulk without its first block is a pool. */
  lemma BulkPool(v: Vol, m: nat, o: Owner)
    requires |v.owner| == |v.blocks| && m < |v.pools| && PoolOk(v, m) && v.pools[m].lo == v.pools[m].hi
    requires MgrOf(o) == m < NOMGR
    ensures PoolOk(Allocated(v, m, o), m)
  {
    var v' := Allocated(v, m, o);
    var n := |v.blocks|;
    forall c | n + 1 <= c < n + BULKS
      ensures v'.owner[c] == Free(m) && v'.blocks[c] == FreeBlk(NextFree(c, n + BULKS))
    {
      assert v'.blocks[c] == FreeBulk(n)[c - n];
    }
    assert forall c :: 0 <= c < n ==> v.owner[c] != Free(m);
  }

  lemma IssuedOtherPool(v: Vol, v': Vol, m: nat, b: nat, o: Owner, k: nat)
    requires |v.owner| == |v.blocks| && |v'.owner| == |v'.blocks|
    requires k < |v.pools| && k < NOMGR && k != m && PoolOk(v, k) && MgrOf(o) != k && o != Free(k)
    requires Issued(v, v', m, b, o)
    ensures PoolOk(v', k)
  {
  }

  lemma IssuedTags(v: Vol, v': Vol, m: nat, b: nat, o: Owner)
    requires SpaceOk(v) && |v'.owner| == |v'.blocks| && m < 3 && MgrOf(o) == m
    requires Issued(v, v', m, b, o)
    ensures forall c :: 0 <= c < |v'.owner| ==> (v'.owner[c] == Tar <==> c < v'.org)
    ensures forall c :: 0 <= c < |v'.owner| ==> v'.owner[c].Free? ==> v'.owner[c].m < 3
    ensures Frame(v, v', {ClassOf(o)})
  {
  }

  /** Issuing a block keeps the free lists intact and touches nothing that was in use. */
  lemma AllocatedOk(v: Vol, m: nat, o: Owner)
    requires SpaceOk(v) && m < 3 && MgrOf(o) == m
    requires |v.blocks| + BULKS <= TARBLK_NONE
    ensures SpaceOk(Allocated(v, m, o))
    ensures Issued(v, Allocated(v, m, o), m, NextIssue(v, m), o)
    ensures Frame(v, Allocated(v, m, o), {ClassOf(o)})
  {
    hide Issued, Frame, FreeBulk, NextFree, NextIssue;
    AllocatedIssues(v, m, o);
    AllocatedOwnPool(v, m, o);
    var v' := Allocated(v, m, o);
    var b := NextIssue(v, m);
    IssuedTags(v, v', m, b, o);
    hide PoolOk;
    forall k | 0 <= k < 3 && k != m
      ensures PoolOk(v', k)
    {
      IssuedOtherPool(v, v', m, b, o, k);
    }
  }

  /** Allocator m has only issued blocks below b. */
  predicate IssuedAllBelow(v: Vol, m: nat, b: nat) {
    forall c :: 0 <= c < |v.owner| && MgrOf(v.owner[c]) == m ==> c < b
  }

  /** Every block an allocator ever issued lies below the one it issues next: issue order is increasing. */
  lemma IssuedBelow(v: Vol, m: nat)
    requires SpaceOk(v) && m < 3
    ensures IssuedAllBelow(v, m, NextIssue(v, m))
  {
    assert PoolOk(v, m);
  }

  /** The head says which block is next, and the free block there says what follows. */
  lemma HeadIsNext(v: Vol, m: nat)
    requires SpaceOk(v) && m < 3
    ensures var p := v.pools[m];
            && p.lo <= p.hi <= |v.blocks|
            && (p.lo < p.hi <==> Head(p) != TARBLK_NONE)
            && (p.lo < p.hi ==> v.blocks[p.lo] == FreeBlk(Head(Pool(p.lo + 1, p.hi))))
  {
    assert PoolOk(v, m);
  }

  /** Writing a block in use keeps the free lists. */
  lemma WriteOk(v: Vol, b: nat, x: Block)
    requires SpaceOk(v) && b < |v.blocks| && !v.owner[b].Free? && b >= v.org
    ensures SpaceOk(v.(blocks := v.blocks[b := x]))
    ensures Frame(v, v.(blocks := v.blocks[b := x]), {ClassOf(v.owner[b])})
  {
    var v' := v.(blocks := v.blocks[b := x]);
    assert PoolOk(v, 0) && PoolOk(v, 1) && PoolOk(v, 2);
    assert PoolOk(v', 0) && PoolOk(v', 1) && PoolOk(v', 2);
  }

  // ----- the free list as it reads on disk

  /** The blocks met when f_nextblkno is followed from `head`, for at most `fuel` steps. */
  function FollowFree(blocks: seq<Block>, head: nat, fuel: nat): seq<nat>
    decreases fuel
  {
    if fuel == 0 || head == TARBLK_NONE || head >= |blocks| || !blocks[head].FreeBlk? then []
    else [head] + FollowFree(blocks, blocks[head].next, fuel - 1)
  }

  /** From its head, a free list on disk visits exactly the unissued blocks, in order, and stops. */
  lemma {:induction false} FreeListWalk(v: Vol, img: seq<Block>, m: nat, b: nat, fuel: nat)
    requires SpaceOk(v) && m < 3 && v.blocks <= img
    requires v.pools[m].lo <= b <= v.pools[m].hi && fuel >= v.pools[m].hi - b
    ensures FollowFree(img, if b < v.pools[m].hi then b else TARBLK_NONE, fuel)
         == seq(v.pools[m].hi - b, i requires 0 <= i => b + i)
    decreases v.pools[m].hi - b
  {
    assert PoolOk(v, m);
    if b < v.pools[m].hi {
      assert img[b] == v.blocks[b];
      FreeListWalk(v, img, m, b + 1, fuel - 1);
    }
  }
}
