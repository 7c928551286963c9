/** An inode in memory (cmd_c++/inode.cc). Directories are the same objects: the source's Dir adds no field. */
module Inodes {
  import opened Meta
  import opened Extents
  import opened ExtMap
  import opened Records
  import opened Volume
  import opened Space
  import opened TarFile

  const NOEXT: Ext := Ext(0, 0, 0)

  /** What setFile makes of a dinode. */
  function FileDinode(d: Dinode, f: File): Dinode
    requires f.HasHeader() && |d.direct| == MAX_DINODE_DIRECT
  {
    var t := f.Usec();
    var a := d.(header := f.blknoHeader, fmt := f.ModeFmt(), perm := f.Perm(), uid := f.Uid(), gid := f.Gid(),
                mtime := t, atime := t, ctime := t);
    if f.Fmt() == DIR then a
    else a.(size := f.FileSize(), blocks := f.Blocks(), nExtents := f.NumExtents(), direct := d.direct[0 := f.addr])
  }

  class Inode {
    const ino: nat
    const pino: nat
    const blkno: nat
    var isMod: bool
    var dinode: Dinode
    ghost var exts: seq<Ext>
    ghost var chain: seq<nat>
    ghost var recs: seq<Rec>
    ghost var intact: bool

    /** A new inode; `now` is the clock. The dirty flag starts with whatever was in memory. */
    constructor (ino: nat, pino: nat, blkno: nat, fmt: Ftype, perm: nat, now: nat, dirty: bool)
      ensures this.ino == ino && this.pino == pino && this.blkno == blkno
      ensures dinode.fmt == fmt && dinode.perm == perm && dinode.uid == 0 && dinode.gid == 0
      ensures dinode.nlink == 1 && dinode.size == 0 && dinode.blocks == 0 && dinode.header == TARBLK_NONE
      ensures dinode.nExtents == 0 && |dinode.direct| == MAX_DINODE_DIRECT
      ensures exts == [] && chain == [] && recs == [] && !intact && ExtRep([], dinode, exts, chain)
    {
      this.ino, this.pino, this.blkno := ino, pino, blkno;
      dinode := Dinode(fmt, perm, 0, 0, 1, 0, 0, now, now, now, TARBLK_NONE, 0,
                       seq(MAX_DINODE_DIRECT, _ => NOEXT), 0);
      isMod := dirty;
      exts, chain, recs, intact := [], [], [], false;
    }

    /** An inode read from its dinode block. */
    constructor Load(ino: nat, pino: nat, blkno: nat, io: FsIO, dirty: bool,
                     ghost exts: seq<Ext>, ghost chain: seq<nat>, ghost recs: seq<Rec>, ghost intact: bool)
      requires blkno < |io.blocks| && io.blocks[blkno].DinodeBlk?
      ensures this.ino == ino && this.pino == pino && this.blkno == blkno
      ensures dinode == io.blocks[blkno].d
      ensures this.exts == exts && this.chain == chain && this.recs == recs && this.intact == intact
    {
      this.ino, this.pino, this.blkno := ino, pino, blkno;
      dinode := io.blocks[blkno].d;
      isMod := dirty;
      this.exts, this.chain, this.recs, this.intact := exts, chain, recs, intact;
    }

    predicate IsDir()
      reads this
    {
      dinode.fmt == DIR
    }

    /** Inode::setFile: attributes of the archive entry; only a directory keeps its own blocks. */
    method SetFile(f: File)
      requires f.HasHeader() && f.Fmt() != NOFMT && |dinode.direct| == MAX_DINODE_DIRECT
      modifies this
      ensures dinode == FileDinode(old(dinode), f) && isMod
      ensures recs == old(recs) && intact == (f.Fmt() == DIR && old(intact))
      ensures f.Fmt() == DIR ==> exts == old(exts) && chain == old(chain)
      ensures f.Fmt() != DIR ==> exts == FileExts(f) && chain == [] && ExtRep([], dinode, exts, chain)
    {
      isMod := true;
      dinode := dinode.(header := f.blknoHeader, fmt := f.ModeFmt(), perm := f.Perm());
      dinode := dinode.(uid := f.Uid(), gid := f.Gid());
      dinode := dinode.(mtime := f.Mtime());
      dinode := dinode.(mtime := dinode.mtime * 1000000 % UINT64);
      dinode := dinode.(ctime := dinode.mtime, atime := dinode.mtime);
      if f.Fmt() != DIR {
        dinode := dinode.(size := f.FileSize(), blocks := f.Blocks(), nExtents := f.NumExtents());
        dinode := dinode.(direct := dinode.direct[0 := f.addr]);
        exts, chain, intact := FileExts(f), [], false;
        assert dinode.direct[..|exts|] == exts;
      }
    }

    /** The extent map is intact on disk and all its indirect blocks belong to this inode. */
    ghost predicate MapOk(fs: FsIO)
      reads this, fs
    {
      ExtRep(fs.blocks, dinode, exts, chain) && ChainOwned(fs.V(), ino, chain)
    }

    /** Inode::insBlock: map the run `de`, merging it into a physically adjacent extent if there is one. */
    method InsBlock(fs: FsIO, iexmgr: SpaceManager, de: Ext)
      requires fs.Ok() && iexmgr.Ok(fs) && iexmgr.id == IEXMGR && MapOk(fs)
      requires |fs.blocks| + BULKS <= TARBLK_NONE
      modifies this`isMod, this`dinode, this`exts, this`chain, fs, iexmgr
      ensures fs.Ok() && iexmgr.Ok(fs) && MapOk(fs) && isMod
      ensures exts == InsExt(old(exts), de)
      ensures Frame(old(fs.V()), fs.V(), {KChain(ino)})
      ensures fs.pools[DIRMGR] == old(fs.pools)[DIRMGR] && fs.pools[DINODEMGR] == old(fs.pools)[DINODEMGR]
      ensures |fs.blocks| <= |old(fs.blocks)| + BULKS
      ensures dinode == old(dinode).(nExtents := dinode.nExtents, direct := dinode.direct,
                                     rootIndExt := dinode.rootIndExt)
    {
      ghost var v := fs.V();
      FrameRefl(v, {KChain(ino)});
      MapShape(fs);
      hide SpaceOk, ChainOwned, Frame, ExtRep;
      isMod := true;
      var i := ScanDirect(fs, de.blkno);
      if i < MAX_DINODE_DIRECT {
        MergeDirect(fs, de, i);
      } else if dinode.nExtents == MAX_DINODE_DIRECT {
        GrowChain(fs, iexmgr, de, 0, IndExt(TARBLK_NONE, 0, []));
      } else if dinode.nExtents < MAX_DINODE_DIRECT {
        PushDirect(fs, de);
      } else {
        InsIndirect(fs, iexmgr, de);
      }
    }

    method MergeDirect(fs: FsIO, de: Ext, i: nat)
      requires MapOk(fs) && i < Min(MAX_DINODE_DIRECT, |exts|)
      requires i == FirstAdjacent(exts, de.blkno) && dinode.direct[i] == exts[i]
      modifies this`dinode, this`exts
      ensures MapOk(fs) && exts == InsExt(old(exts), de)
      ensures dinode == old(dinode).(direct := dinode.direct)
    {
      hide ExtRep, FirstAdjacent, InsExt;
      DirectRead(fs.blocks, dinode, exts, chain);
      var e := dinode.direct[i];
      e := e.(nblks := e.nblks + de.nblks);
      InsMerges(exts, de, i);
      RepMergeDirect(fs.blocks, dinode, exts, chain, i, e);
      dinode := dinode.(direct := dinode.direct[i := e]);
      exts := exts[i := e];
    }

    method PushDirect(fs: FsIO, de: Ext)
      requires MapOk(fs) && |exts| < MAX_DINODE_DIRECT && FirstAdjacent(exts, de.blkno) == |exts|
      modifies this`dinode, this`exts
      ensures MapOk(fs) && exts == InsExt(old(exts), de)
      ensures dinode == old(dinode).(direct := dinode.direct, nExtents := dinode.nExtents)
    {
      InsAppends(exts, de);
      hide FirstAdjacent, InsExt;
      var n := dinode.nExtents;
      RepPushDirect(fs.blocks, dinode, exts, chain, de);
      hide ExtRep;
      dinode := dinode.(direct := dinode.direct[n := de], nExtents := n + 1);
      exts := exts + [de];
    }

    /** "search indirect extents" and what follows it. */
    method InsIndirect(fs: FsIO, iexmgr: SpaceManager, de: Ext)
      requires fs.Ok() && iexmgr.Ok(fs) && iexmgr.id == IEXMGR && MapOk(fs)
      requires |exts| > MAX_DINODE_DIRECT
      requires forall j :: 0 <= j < MAX_DINODE_DIRECT ==> exts[j].End() != de.blkno
      requires |fs.blocks| + BULKS <= TARBLK_NONE
      modifies this`dinode, this`exts, this`chain, fs, iexmgr
      ensures fs.Ok() && iexmgr.Ok(fs) && MapOk(fs)
      ensures exts == InsExt(old(exts), de)
      ensures Frame(old(fs.V()), fs.V(), {KChain(ino)})
      ensures fs.pools[DIRMGR] == old(fs.pools)[DIRMGR] && fs.pools[DINODEMGR] == old(fs.pools)[DINODEMGR]
      ensures |fs.blocks| <= |old(fs.blocks)| + BULKS
      ensures dinode == old(dinode).(nExtents := dinode.nExtents, rootIndExt := dinode.rootIndExt)
    {
      MapShape(fs);
      hide SpaceOk, ChainOwned, Frame, ExtRep;
      var indOff, indExt, slot;
      ghost var k;
      indOff, indExt, slot, k := ScanChain(fs, de.blkno);
      if slot < indExt.num {
        MergeInChain(fs, de, indOff, indExt, slot, k);
      } else if indExt.num < MAX_INDEXT {
        PushInChain(fs, de, indOff, indExt);
      } else {
        GrowChain(fs, iexmgr, de, indOff, indExt);
      }
    }

    lemma MapShape(fs: FsIO)
      requires fs.Ok() && MapOk(fs)
      ensures TARBLK_NONE !in chain && |dinode.direct| == MAX_DINODE_DIRECT
      ensures |chain| == ChainLen(|exts|)
      ensures dinode.nExtents == if |exts| <= MAX_DINODE_DIRECT then |exts| else MAX_DINODE_DIRECT + |chain|
      ensures |exts| > MAX_DINODE_DIRECT <==> |chain| > 0
      ensures |fs.pools| == 3
    {
      ChainCount(|exts|);
    }

    /** The first adjacent direct extent; MAX_DINODE_DIRECT if there is none. */
    method ScanDirect(io: FsIO, blkno: nat) returns (i: nat)
      requires ExtRep(io.blocks, dinode, exts, chain)
      ensures i < MAX_DINODE_DIRECT ==>
                i < |exts| && i == FirstAdjacent(exts, blkno) && dinode.direct[i] == exts[i]
      ensures i >= MAX_DINODE_DIRECT ==>
                forall j :: 0 <= j < Min(MAX_DINODE_DIRECT, |exts|) ==> exts[j].End() != blkno
    {
      hide ExtRep, FirstAdjacent;
      DirectRead(io.blocks, dinode, exts, chain);
      var n := Min(dinode.nExtents, MAX_DINODE_DIRECT);
      for k := 0 to n
        invariant forall j :: 0 <= j < k ==> exts[j].End() != blkno
      {
        var e := dinode.direct[k];
        if e.End() == blkno {
          AdjacentAt(exts, blkno, k);
          return k;
        }
      }
      return MAX_DINODE_DIRECT;
    }

    /** The first adjacent extent in the indirect blocks, or the last indirect block with `slot` past its extents. */
    method ScanChain(io: FsIO, blkno: nat) returns (indOff: nat, indExt: IndExt, slot: nat, ghost k: nat)
      requires ExtRep(io.blocks, dinode, exts, chain) && TARBLK_NONE !in chain && |chain| > 0
      requires forall j :: 0 <= j < MAX_DINODE_DIRECT ==> exts[j].End() != blkno
      ensures k < |chain| && indOff == chain[k] < |io.blocks| && io.blocks[indOff] == IndBlk(indExt)
      ensures ChainBase(k) < |exts| && ChainBlk(io.blocks, exts, chain, k)
      ensures slot < indExt.num ==>
                ChainBase(k) + slot == FirstAdjacent(exts, blkno) && indExt.dext[slot] == exts[ChainBase(k) + slot]
      ensures slot >= indExt.num ==> k == |chain| - 1 && FirstAdjacent(exts, blkno) == |exts|
    {
      hide ExtRep, ChainBlk, FirstAdjacent;
      DirectRead(io.blocks, dinode, exts, chain);
      ChainRead(io.blocks, dinode, exts, chain, 0);
      indOff := dinode.rootIndExt;
      k := 0;
      while true
        invariant k < |chain| && indOff == chain[k] && ChainBase(k) < |exts|
        invariant forall j :: 0 <= j < ChainBase(k) ==> exts[j].End() != blkno
        decreases |chain| - k
      {
        ChainRead(io.blocks, dinode, exts, chain, k);
        var x := io.ReadBlock(indOff);
        indExt := x.ie;
        for i := 0 to indExt.num
          invariant forall j :: 0 <= j < ChainBase(k) + i ==> exts[j].End() != blkno
        {
          var e := indExt.dext[i];
          if e.End() == blkno {
            AdjacentAt(exts, blkno, ChainBase(k) + i);
            slot := i;
            return;
          }
        }
        if indExt.next == TARBLK_NONE {
          AdjacentAt(exts, blkno, |exts|);
          slot := indExt.num;
          return;
        }
        indOff := indExt.next;
        k := k + 1;
      }
    }

    /** Writes indirect block `k` with its new image `ie`. */
    method WriteIndExt(fs: FsIO, ie: IndExt, ghost k: nat, indOff: nat)
      requires fs.Ok() && ChainOwned(fs.V(), ino, chain) && k < |chain| && indOff == chain[k]
      modifies fs`blocks, fs`blks, fs`sb
      ensures fs.Ok() && ChainOwned(fs.V(), ino, chain)
      ensures indOff < |old(fs.blocks)| && fs.blocks == old(fs.blocks)[indOff := IndBlk(ie)]
      ensures Frame(old(fs.V()), fs.V(), {KChain(ino)})
    {
      ghost var v := fs.V();
      ChainDistinct(v, ino, chain, k);
      hide SpaceOk, ChainOwned, Frame;
      fs.Update(IndBlk(ie), indOff);
      ChainOwnedSame(v, fs.V(), ino, chain);
    }

    /** "merge!!": the adjacent extent in an indirect block grows. */
    method MergeInChain(fs: FsIO, de: Ext, indOff: nat, indExt: IndExt, slot: nat, ghost k: nat)
      requires fs.Ok() && MapOk(fs)
      requires k < |chain| && indOff == chain[k] < |fs.blocks| && fs.blocks[indOff] == IndBlk(indExt)
      requires ChainBase(k) < |exts| && ChainBlk(fs.blocks, exts, chain, k)
      requires slot < indExt.num && ChainBase(k) + slot == FirstAdjacent(exts, de.blkno)
      requires indExt.dext[slot] == exts[ChainBase(k) + slot]
      modifies this`exts, fs`blocks, fs`blks, fs`sb
      ensures fs.Ok() && MapOk(fs) && |fs.blocks| == |old(fs.blocks)|
      ensures exts == InsExt(old(exts), de)
      ensures Frame(old(fs.V()), fs.V(), {KChain(ino)})
    {
      hide SpaceOk, ChainOwned, Frame, ExtRep, FirstAdjacent, InsExt, ChainBlk;
      RepShape(fs.blocks, dinode, exts, chain);
      InsMerges(exts, de, ChainBase(k) + slot);
      var e := indExt.dext[slot];
      e := e.(nblks := e.nblks + de.nblks);
      ChainDistinct(fs.V(), ino, chain, k);
      RepMergeChain(fs.blocks, dinode, exts, chain, k, slot, e);
      WriteIndExt(fs, indExt.(dext := indExt.dext[slot := e]), k, indOff);
      exts := exts[ChainBase(k) + slot := e];
    }

    /** Takes the next slot of the last indirect block. */
    method PushInChain(fs: FsIO, de: Ext, indOff: nat, indExt: IndExt)
      requires fs.Ok() && MapOk(fs) && |chain| > 0
      requires FirstAdjacent(exts, de.blkno) == |exts| < ChainBase(|chain|)
      requires indOff == chain[|chain| - 1] < |fs.blocks| && fs.blocks[indOff] == IndBlk(indExt)
      requires indExt.num < MAX_INDEXT && |indExt.dext| == MAX_INDEXT
      modifies this`exts, fs`blocks, fs`blks, fs`sb
      ensures fs.Ok() && MapOk(fs) && |fs.blocks| == |old(fs.blocks)|
      ensures exts == InsExt(old(exts), de)
      ensures Frame(old(fs.V()), fs.V(), {KChain(ino)})
    {
      hide SpaceOk, ChainOwned, Frame, ExtRep, FirstAdjacent, InsExt, ChainBlk;
      RepShape(fs.blocks, dinode, exts, chain);
      InsAppends(exts, de);
      ChainDistinct(fs.V(), ino, chain, |chain| - 1);
      RepPushChain(fs.blocks, dinode, exts, chain, de);
      WriteIndExt(fs, indExt.(dext := indExt.dext[indExt.num := de], num := indExt.num + 1), |chain| - 1, indOff);
      exts := exts + [de];
    }

    method NewIndExt(de: Ext) returns (ie: IndExt)
      ensures ie.next == TARBLK_NONE && ie.num == 1 && |ie.dext| == MAX_INDEXT && ie.dext[0] == de
    {
      var junk: seq<Ext> := *;
      if |junk| != MAX_INDEXT { junk := seq(MAX_INDEXT, _ => NOEXT); }
      ie := IndExt(TARBLK_NONE, 1, junk[0 := de]);
    }

    /** "getblock": a new indirect block is linked behind the last one, or becomes the first. */
    method GrowChain(fs: FsIO, iexmgr: SpaceManager, de: Ext, indOff: nat, indExt: IndExt)
      requires fs.Ok() && iexmgr.Ok(fs) && iexmgr.id == IEXMGR && MapOk(fs)
      requires FirstAdjacent(exts, de.blkno) == |exts| && |exts| >= MAX_DINODE_DIRECT
      requires |exts| > MAX_DINODE_DIRECT ==>
                 && |chain| > 0 && indOff == chain[|chain| - 1] < |fs.blocks| && fs.blocks[indOff] == IndBlk(indExt)
                 && indExt.num == MAX_INDEXT && |exts| == ChainBase(|chain|)
      requires |fs.blocks| + BULKS <= TARBLK_NONE
      modifies this`dinode, this`exts, this`chain, fs, iexmgr
      ensures fs.Ok() && iexmgr.Ok(fs) && MapOk(fs)
      ensures exts == InsExt(old(exts), de)
      ensures Frame(old(fs.V()), fs.V(), {KChain(ino)})
      ensures fs.pools[DIRMGR] == old(fs.pools)[DIRMGR] && fs.pools[DINODEMGR] == old(fs.pools)[DINODEMGR]
      ensures |fs.blocks| <= |old(fs.blocks)| + BULKS
      ensures dinode == old(dinode).(nExtents := dinode.nExtents, rootIndExt := dinode.rootIndExt)
    {
      hide SpaceOk, ExtRep, ChainOwned, Frame, FirstAdjacent, InsExt, ChainBase, ChainLen, Allocated;
      MapShape(fs);
      ghost var v := fs.V();
      var newOff := AllocIndExt(fs, iexmgr);
      ghost var v1 := fs.V();
      LinkIndExt(fs, newOff, de, indOff, indExt);
      FrameTwice(v, v1, fs.V(), {KChain(ino)});
    }

    /** The new block gets its extent and is linked in. */
    method LinkIndExt(fs: FsIO, newOff: nat, de: Ext, indOff: nat, indExt: IndExt)
      requires fs.Ok() && ExtRep(fs.blocks, dinode, exts, chain) && |exts| >= MAX_DINODE_DIRECT
      requires fs.orgblks <= newOff < |fs.blocks| && fs.owner[newOff] == Chain(ino, |chain|) && newOff !in chain
      requires ChainOwned(fs.V(), ino, chain + [newOff]) && FirstAdjacent(exts, de.blkno) == |exts|
      requires |exts| == MAX_DINODE_DIRECT ==> dinode.nExtents == MAX_DINODE_DIRECT && chain == []
      requires |exts| > MAX_DINODE_DIRECT ==>
                 && dinode.nExtents > MAX_DINODE_DIRECT && |exts| == ChainBase(|chain|)
                 && |chain| > 0 && indOff == chain[|chain| - 1] < |fs.blocks| && fs.blocks[indOff] == IndBlk(indExt)
      modifies this`dinode, this`exts, this`chain, fs`blocks, fs`blks, fs`sb
      ensures fs.Ok() && MapOk(fs) && exts == InsExt(old(exts), de)
      ensures Frame(old(fs.V()), fs.V(), {KChain(ino)}) && |fs.blocks| == |old(fs.blocks)|
      ensures dinode == old(dinode).(nExtents := dinode.nExtents, rootIndExt := dinode.rootIndExt)
    {
      hide SpaceOk, ExtRep, ChainOwned, Frame, InsExt, FirstAdjacent;
      var newInd := NewIndExt(de);
      if dinode.nExtents == MAX_DINODE_DIRECT {
        FirstIndExt(fs, newOff, newInd, de);
      } else {
        NextIndExt(fs, newOff, newInd, de, indOff, indExt);
      }
    }

    /** A free block issued to this inode's chain. */
    method AllocIndExt(fs: FsIO, iexmgr: SpaceManager) returns (b: nat)
      requires fs.Ok() && iexmgr.Ok(fs) && iexmgr.id == IEXMGR && MapOk(fs)
      requires |fs.blocks| + BULKS <= TARBLK_NONE
      modifies fs, iexmgr
      ensures fs.Ok() && iexmgr.Ok(fs)
      ensures ExtRep(fs.blocks, dinode, exts, chain) && ChainOwned(fs.V(), ino, chain + [b]) && b !in chain
      ensures fs.orgblks <= b < |fs.blocks| && fs.owner[b] == Chain(ino, |chain|)
      ensures Frame(old(fs.V()), fs.V(), {KChain(ino)})
      ensures fs.pools[DIRMGR] == old(fs.pools)[DIRMGR] && fs.pools[DINODEMGR] == old(fs.pools)[DINODEMGR]
      ensures |old(fs.blocks)| <= |fs.blocks| <= |old(fs.blocks)| + BULKS
      ensures forall c :: 0 <= c < |old(fs.blocks)| ==> fs.blocks[c] == old(fs.blocks)[c]
    {
      ghost var v := fs.V();
      b := iexmgr.AllocBlock(fs, Chain(ino, |chain|));
      ChainOwnedGrows(v, fs.V(), ino, chain, b);
      RepIssued(v, fs.V(), dinode, exts, chain);
      hide ExtRep, ChainOwned, SpaceOk, Frame;
    }

    /** The block becomes di_rootIndExt. */
    method FirstIndExt(fs: FsIO, newOff: nat, newInd: IndExt, de: Ext)
      requires fs.Ok() && ExtRep(fs.blocks, dinode, exts, chain) && |exts| == MAX_DINODE_DIRECT && chain == []
      requires fs.orgblks <= newOff < |fs.blocks| && fs.owner[newOff] == Chain(ino, |chain|)
      requires ChainOwned(fs.V(), ino, chain + [newOff])
      requires newInd.next == TARBLK_NONE && newInd.num == 1 && |newInd.dext| == MAX_INDEXT && newInd.dext[0] == de
      requires FirstAdjacent(exts, de.blkno) == |exts|
      modifies this`dinode, this`exts, this`chain, fs`blocks, fs`blks, fs`sb
      ensures fs.Ok() && MapOk(fs) && exts == InsExt(old(exts), de)
      ensures Frame(old(fs.V()), fs.V(), {KChain(ino)}) && |fs.blocks| == |old(fs.blocks)|
      ensures dinode == old(dinode).(nExtents := dinode.nExtents, rootIndExt := dinode.rootIndExt)
    {
      ghost var v := fs.V();
      hide ExtRep, ChainOwned, SpaceOk, Frame, FirstAdjacent, InsExt;
      InsAppends(exts, de);
      RepFirstChain(fs.blocks, dinode, exts, chain, newOff, newInd, de);
      fs.Update(IndBlk(newInd), newOff);
      ChainOwnedSame(v, fs.V(), ino, chain + [newOff]);
      assert chain + [newOff] == [newOff];
      dinode := dinode.(rootIndExt := newOff);
      dinode := dinode.(nExtents := dinode.nExtents + 1);
      exts := exts + [de];
      chain := chain + [newOff];
    }

    /** The last indirect block, which is full, links to the block. */
    method NextIndExt(fs: FsIO, newOff: nat, newInd: IndExt, de: Ext, indOff: nat, indExt: IndExt)
      requires fs.Ok() && ExtRep(fs.blocks, dinode, exts, chain)
      requires fs.orgblks <= newOff < |fs.blocks| && fs.owner[newOff] == Chain(ino, |chain|) && newOff !in chain
      requires ChainOwned(fs.V(), ino, chain + [newOff])
      requires newInd.next == TARBLK_NONE && newInd.num == 1 && |newInd.dext| == MAX_INDEXT && newInd.dext[0] == de
      requires |chain| > 0 && indOff == chain[|chain| - 1] < |fs.blocks| && fs.blocks[indOff] == IndBlk(indExt)
      requires |exts| == ChainBase(|chain|) && FirstAdjacent(exts, de.blkno) == |exts|
      modifies this`dinode, this`exts, this`chain, fs`blocks, fs`blks, fs`sb
      ensures fs.Ok() && MapOk(fs) && exts == InsExt(old(exts), de)
      ensures Frame(old(fs.V()), fs.V(), {KChain(ino)}) && |fs.blocks| == |old(fs.blocks)|
      ensures dinode == old(dinode).(nExtents := dinode.nExtents)
    {
      hide ExtRep, ChainOwned, SpaceOk, Frame, FirstAdjacent, InsExt, ChainBlk;
      InsAppends(exts, de);
      ghost var v := fs.V();
      ghost var k := |chain| - 1;
      ChainDistinct(v, ino, chain + [newOff], k);
      assert forall j :: 0 <= j < |chain| ==> chain[j] == (chain + [newOff])[j];
      RepGrowChain(fs.blocks, dinode, exts, chain, newOff, newInd, de);
      chain := chain + [newOff];
      WriteIndExt(fs, indExt.(next := newOff), k, indOff);
      ghost var v1 := fs.V();
      WriteIndExt(fs, newInd, k + 1, newOff);
      FrameTwice(v, v1, fs.V(), {KChain(ino)});
      dinode := dinode.(nExtents := dinode.nExtents + 1);
      exts := exts + [de];
    }

    /** Inode::getBlock: the disk block of file block `off`; None where the source leaves its argument alone. */
    method GetBlock(io: FsIO, off: nat) returns (blkno: Option<nat>)
      requires ExtRep(io.blocks, dinode, exts, chain) && TARBLK_NONE !in chain
      ensures blkno == LookupExt(exts, off)
    {
      hide ExtRep, ChainBlk, LookupExt;
      DirectRead(io.blocks, dinode, exts, chain);
      var n := Min(dinode.nExtents, MAX_DINODE_DIRECT);
      for i := 0 to n
        invariant forall j :: 0 <= j < i ==> !Hits(exts[j], off)
      {
        var e := dinode.direct[i];
        if e.off <= off < e.off + e.nblks {
          HitAt(exts, off, i);
          return Some(e.blkno + (off - e.off));
        }
      }
      if dinode.nExtents <= MAX_DINODE_DIRECT {
        NoHit(exts, off);
        return None;
      }
      ChainRead(io.blocks, dinode, exts, chain, 0);
      var indOff := dinode.rootIndExt;
      ghost var k := 0;
      while true
        invariant k < |chain| && indOff == chain[k] && ChainBase(k) < |exts|
        invariant forall j :: 0 <= j < ChainBase(k) ==> !Hits(exts[j], off)
        decreases |chain| - k
      {
        ChainRead(io.blocks, dinode, exts, chain, k);
        var x := io.ReadBlock(indOff);
        var indExt := x.ie;
        for i := 0 to indExt.num
          invariant forall j :: 0 <= j < ChainBase(k) + i ==> !Hits(exts[j], off)
        {
          var e := indExt.dext[i];
          if e.off <= off < e.off + e.nblks {
            HitAt(exts, off, ChainBase(k) + i);
            return Some(e.blkno + (off - e.off));
          }
        }
        indOff := indExt.next;
        if indOff == TARBLK_NONE {
          NoHit(exts, off);
          return None;
        }
        k := k + 1;
      }
    }

    /** Inode::sync: the dinode goes to its block. */
    method Sync(fs: FsIO)
      requires fs.Ok() && blkno < |fs.blocks| && fs.owner[blkno] == Dino(ino)
      modifies fs`blocks, fs`blks, fs`sb
      ensures fs.Ok() && Frame(old(fs.V()), fs.V(), {KDino(ino)})
      ensures isMod ==> fs.blocks == old(fs.blocks)[blkno := DinodeBlk(dinode)]
      ensures !isMod ==> fs.blocks == old(fs.blocks)
      ensures fs.sb == old(fs.sb)
    {
      if !isMod {
        return;
      }
      fs.Update(DinodeBlk(dinode), blkno);
    }
  }
}
