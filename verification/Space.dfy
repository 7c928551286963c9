/** The growing image file and its block allocators (cmd_c++/fsmaker.cc, cmd_c++/space.cc, cmd_c++/tarfs.h). */
module Space {
  import opened Meta
  import opened Volume

  const ZEROS: Block := Raw(seq(TAR_BLOCKSIZE, _ => 0))

  /** pwrite of whole blocks; a gap past the end of file reads as zeros. */
  function Written(blocks: seq<Block>, blkno: nat, bufs: seq<Block>): (r: seq<Block>)
    ensures |r| >= |blocks|
  {
    if blkno > |blocks| then
      blocks + seq(blkno - |blocks|, _ => ZEROS) + bufs
    else
      blocks[..blkno] + bufs + (if blkno + |bufs| < |blocks| then blocks[blkno + |bufs|..] else [])
  }

  /** Every block of the file afterwards: written, as before, or in a gap that reads as zeros. */
  lemma WrittenAt(blocks: seq<Block>, blkno: nat, bufs: seq<Block>, i: nat)
    ensures |Written(blocks, blkno, bufs)| == if blkno + |bufs| > |blocks| then blkno + |bufs| else |blocks|
    ensures i < |Written(blocks, blkno, bufs)| ==>
              Written(blocks, blkno, bufs)[i]
              == if blkno <= i < blkno + |bufs| then bufs[i - blkno]
                 else if i < |blocks| then blocks[i]
                 else Raw(seq(512, _ => 0))
  {
  }

  lemma WrittenOne(blocks: seq<Block>, blkno: nat, x: Block)
    requires blkno <= |blocks|
    ensures Written(blocks, blkno, [x]) == if blkno < |blocks| then blocks[blkno := x] else blocks + [x]
  {
  }

  /** The file being extended: its blocks, the tracked size and the in-memory superblock. */
  class FsIO {
    var blocks: seq<Block>
    var blks: nat
    var sb: SBlock
    const orgblks: nat
    ghost const tar: seq<Block>
    ghost var owner: seq<Owner>
    ghost var pools: seq<Pool>

    constructor (tar: seq<Block>, sb: SBlock)
      ensures blocks == tar == this.tar && blks == |tar| == orgblks && this.sb == sb
      ensures owner == seq(|tar|, _ => Tar) && pools == [Pool(0, 0), Pool(0, 0), Pool(0, 0)]
    {
      blocks := tar;
      blks := |tar|;
      orgblks := |tar|;
      this.tar := tar;
      this.sb := sb;
      owner := seq(|tar|, _ => Tar);
      pools := [Pool(0, 0), Pool(0, 0), Pool(0, 0)];
    }

    ghost function V(): Vol
      reads this
    {
      Vol(blocks, owner, pools, orgblks)
    }

    /** The archive is untouched; the size on record is the size of the file, also in the superblock. */
    ghost predicate Ok()
      reads this
    {
      && SpaceOk(V())
      && blocks[..orgblks] == tar
      && blks == |blocks|
      && sb.size == blks - orgblks
      && sb.free == orgblks && sb.root == orgblks + 1
    }

    method ReadBlock(blkno: nat) returns (x: Block)
      requires blkno < |blocks|
      ensures x == blocks[blkno]
    {
      x := blocks[blkno];
    }

    method WriteBlock(bufs: seq<Block>, blkno: nat)
      requires orgblks <= blks
      modifies this`blocks, this`blks, this`sb
      ensures blocks == Written(old(blocks), blkno, bufs)
      ensures blks == if blkno + |bufs| > old(blks) then blkno + |bufs| else old(blks)
      ensures sb == if blkno + |bufs| > old(blks) then old(sb).(size := blks - orgblks) else old(sb)
    {
      if blkno + |bufs| > blks {
        blks := blkno + |bufs|;
        sb := sb.(size := blks - orgblks);
      }
      blocks := Written(blocks, blkno, bufs);
    }

    /** Overwriting one block that is in use. */
    method Update(x: Block, blkno: nat)
      requires Ok() && orgblks <= blkno < |blocks| && !owner[blkno].Free?
      modifies this`blocks, this`blks, this`sb
      ensures Ok() && blocks == old(blocks)[blkno := x] && blks == old(blks) && sb == old(sb)
      ensures Frame(old(V()), V(), {ClassOf(owner[blkno])})
    {
      WriteOk(V(), blkno, x);
      WrittenOne(blocks, blkno, x);
      WriteBlock([x], blkno);
    }

    /** writeBlock(&sb, blks, 1): the buffer is the very superblock whose size the call updates first. */
    method WriteSuper()
      requires orgblks <= blks == |blocks|
      modifies this`blocks, this`blks, this`sb
      ensures sb == old(sb).(size := old(blks) + 1 - orgblks)
      ensures blocks == old(blocks) + [SuperBlk(sb)] && blks == |blocks|
    {
      var blkno := blks;
      if blkno + 1 > blks {
        blks := blkno + 1;
        sb := sb.(size := blks - orgblks);
      }
      WrittenOne(blocks, blkno, SuperBlk(sb));
      blocks := Written(blocks, blkno, [SuperBlk(sb)]);
    }

    /** The file is cut back to the archive (the program then exits). */
    method Rollback()
      requires orgblks <= |blocks|
      modifies this`blocks
      ensures blocks == old(blocks)[..orgblks]
    {
      blocks := blocks[..orgblks];
    }
  }

  class SpaceManager {
    var blkno: nat
    const bulks: nat
    ghost const id: nat

    constructor (bulks: nat, ghost id: nat)
      ensures blkno == TARBLK_NONE && this.bulks == bulks && this.id == id
    {
      this.blkno := TARBLK_NONE;
      this.bulks := bulks;
      this.id := id;
    }

    /** The head is the first unissued block of this manager's pool. */
    ghost predicate Ok(fs: FsIO)
      reads this, fs
    {
      id < 3 && |fs.pools| == 3 && bulks == BULKS && blkno == Head(fs.pools[id])
    }

    /** A bulk of free blocks to be written at `blk`, each naming the next. */
    method LinkBulk(blk: nat) returns (space: array<Block>)
      requires bulks == BULKS
      ensures fresh(space) && space[..] == FreeBulk(blk)
    {
      space := new Block[bulks](_ => FreeBlk(0));
      for i := 0 to bulks
        invariant forall j :: 0 <= j < i ==> space[j] == FreeBlk(blk + j + 1)
      {
        space[i] := FreeBlk(blk + i + 1);
      }
      space[bulks - 1] := FreeBlk(TARBLK_NONE);
      forall i | 0 <= i < BULKS
        ensures space[..][i] == FreeBulk(blk)[i]
      {
        assert space[i] == FreeBlk(NextFree(blk + i, blk + BULKS));
      }
      assert space[..] == FreeBulk(blk);
    }

    /** A new bulk at the end of the file: its first block is issued, the second becomes the head. */
    method TakeBulk(fs: FsIO) returns (b: nat)
      requires bulks == BULKS && fs.blks == |fs.blocks| && fs.orgblks <= fs.blks
      modifies this`blkno, fs`blocks, fs`blks, fs`sb
      ensures b == |old(fs.blocks)| && blkno == b + 1
      ensures fs.blocks == old(fs.blocks) + FreeBulk(b) && fs.blks == |fs.blocks|
      ensures fs.sb == old(fs.sb).(size := fs.blks - fs.orgblks)
    {
      b := fs.blks;
      blkno := fs.blks + 1;
      var space := LinkBulk(b);
      hide FreeBulk;
      fs.WriteBlock(space[..], b);
    }

    /** Issues a block nobody uses, larger than any this manager issued before. */
    method AllocBlock(fs: FsIO, ghost o: Owner) returns (b: nat)
      requires fs.Ok() && Ok(fs) && MgrOf(o) == id
      requires |fs.blocks| + BULKS <= TARBLK_NONE
      modifies this, fs
      ensures fs.Ok() && Ok(fs)
      ensures fs.V() == Allocated(old(fs.V()), id, o) && b == NextIssue(old(fs.V()), id)
      ensures Issued(old(fs.V()), fs.V(), id, b, o) && Frame(old(fs.V()), fs.V(), {ClassOf(o)})
      ensures IssuedAllBelow(old(fs.V()), id, b)
      ensures forall k :: 0 <= k < 3 && k != id ==> fs.pools[k] == old(fs.pools)[k]
      ensures |old(fs.blocks)| <= |fs.blocks| <= |old(fs.blocks)| + BULKS
    {
      hide SpaceOk, Issued, Frame, FreeBulk, IssuedAllBelow;
      ghost var v := fs.V();
      AllocatedOk(v, id, o);
      IssuedBelow(v, id);
      HeadIsNext(v, id);
      SpaceShape(v);
      b := NextBlock(fs, o);
      fs.owner := Allocated(v, id, o).owner;
      fs.pools := Allocated(v, id, o).pools;
      assert fs.V() == Allocated(v, id, o);
    }

    /** The head of the free list, or the first block of a new bulk. */
    method NextBlock(fs: FsIO, ghost o: Owner) returns (b: nat)
      requires fs.blks == |fs.blocks| == |fs.owner| && fs.orgblks <= fs.blks && Ok(fs)
      requires var p := fs.pools[id];
               && p.lo <= p.hi <= |fs.blocks|
               && (p.lo < p.hi <==> blkno != TARBLK_NONE)
               && (p.lo < p.hi ==> fs.blocks[p.lo] == FreeBlk(Head(Pool(p.lo + 1, p.hi))))
      requires fs.sb.size == fs.blks - fs.orgblks
      modifies this`blkno, fs`blocks, fs`blks, fs`sb
      ensures b == NextIssue(old(fs.V()), id)
      ensures fs.blocks == Allocated(old(fs.V()), id, o).blocks && fs.blks == |fs.blocks|
      ensures fs.sb == old(fs.sb).(size := fs.blks - fs.orgblks)
      ensures blkno == Head(Allocated(old(fs.V()), id, o).pools[id])
    {
      hide FreeBulk;
      if blkno == TARBLK_NONE {
        b := TakeBulk(fs);
      } else {
        b := blkno;
        var space := fs.ReadBlock(blkno);
        blkno := space.next;
      }
    }
  }
}
