/** Directory operations on an inode (cmd_c++/dir.cc). The source's class Dir adds methods to Inode, no fields. */
module Dirs {
  import opened Meta
  import opened Bytes
  import opened Extents
  import opened ExtMap
  import R = Records
  import opened DirBlock
  import opened Volume
  import opened Space
  import opened Nodes
  import opened Inodes

  /** struct dirFreeSpace */
  class DirFreeSpace {
    var off: nat
    var blkno: nat
    const dirbuf: array<byte>

    constructor ()
      ensures off == TARBLK_NONE && dirbuf.Length == TAR_BLOCKSIZE && fresh(dirbuf)
    {
      off := TARBLK_NONE;
      blkno := 0;
      dirbuf := new byte[TAR_BLOCKSIZE];
    }
  }

  /** The directory can be read: its extent map and its records are on the device. */
  ghost predicate Readable(io: FsIO, dir: Inode)
    reads io, dir
  {
    var flat := Flat(dir.exts);
    && ExtRep(io.blocks, dir.dinode, dir.exts, dir.chain) && TARBLK_NONE !in dir.chain
    && Tiled(dir.exts)
    && dir.dinode.size == TAR_BLOCKSIZE * |flat|
    && (forall k :: 0 <= k < |flat| ==> flat[k] < |io.blocks|)
    && R.Encodes(Bufs(io.blocks, flat), dir.recs)
  }

  /** A position in a directory scan: byte offset, current block and its image, record pointer in the image. */
  datatype Pos = Pos(off: nat, dirblkno: nat, dirbuf: seq<byte>, direct: nat)

  /** The scan stands at the start of record `g`; inside a block, the image is that block's. */
  ghost predicate AtRec(flat: seq<nat>, bufs: seq<seq<byte>>, recs: seq<R.Rec>, g: nat, p: Pos)
    requires |flat| == |bufs|
  {
    && g <= |recs| && p.off == R.Offset(recs, g) <= TAR_BLOCKSIZE * |bufs|
    && (p.off % TAR_BLOCKSIZE != 0 ==> InBlock(flat, bufs, p))
  }

  ghost predicate InBlock(flat: seq<nat>, bufs: seq<seq<byte>>, p: Pos)
    requires |flat| == |bufs|
  {
    && p.off / TAR_BLOCKSIZE < |bufs|
    && p.dirblkno == flat[p.off / TAR_BLOCKSIZE]
    && p.dirbuf == bufs[p.off / TAR_BLOCKSIZE]
    && p.direct == p.off % TAR_BLOCKSIZE
  }

  /** The record under the scan. */
  lemma ScanRec(bufs: seq<seq<byte>>, recs: seq<R.Rec>, g: nat, off: nat, dirbuf: seq<byte>)
    requires R.Encodes(bufs, recs) && g <= |recs| && off == R.Offset(recs, g) && off < TAR_BLOCKSIZE * |bufs|
    requires off / TAR_BLOCKSIZE < |bufs| && dirbuf == bufs[off / TAR_BLOCKSIZE]
    ensures g < |recs| && R.RecAt(dirbuf, off % TAR_BLOCKSIZE, recs[g]) && |dirbuf| == TAR_BLOCKSIZE
    ensures recs[g].Ok() && recs[g].reclen > 0
  {
    assert R.Stored(bufs, recs, g);
    assert R.Fits(recs, g);
  }

  /** Where the next record starts. */
  lemma ScanNext(flat: seq<nat>, bufs: seq<seq<byte>>, recs: seq<R.Rec>, g: nat, p: Pos)
    requires |flat| == |bufs| && R.Encodes(bufs, recs) && g < |recs| && p.off == R.Offset(recs, g)
    requires InBlock(flat, bufs, p)
    ensures AtRec(flat, bufs, recs, g + 1, p.(off := p.off + recs[g].reclen, direct := p.direct + recs[g].reclen))
  {
    hide R.RecAt, R.Fits, R.Stored;
    R.RecordInBlock(recs, |bufs|, g);
  }

  lemma EncodesTiles(bufs: seq<seq<byte>>, recs: seq<R.Rec>)
    requires R.Encodes(bufs, recs)
    ensures R.Tiles(recs, |bufs|)
  {
  }

  /** Reads block `off / 512` of the directory. */
  method ReadDirBlock(dir: Inode, io: FsIO, off: nat) returns (dirblkno: nat, dirbuf: seq<byte>)
    requires Readable(io, dir) && off < dir.dinode.size
    ensures var flat := Flat(dir.exts);
            && off / TAR_BLOCKSIZE < |flat|
            && dirblkno == flat[off / TAR_BLOCKSIZE]
            && dirbuf == Bufs(io.blocks, flat)[off / TAR_BLOCKSIZE]
  {
    TiledMaps(dir.exts);
    var b := dir.GetBlock(io, off / TAR_BLOCKSIZE);
    assert off / TAR_BLOCKSIZE < |Flat(dir.exts)|;
    dirblkno := b.value;
    var x := io.ReadBlock(dirblkno);
    dirbuf := BytesOf(x);
  }

  /** direct->d_ino, direct->d_reclen and the first d_namelen bytes of direct->d_name */
  method ReadRec(dirbuf: seq<byte>, direct: nat, ghost r: R.Rec) returns (ino: nat, reclen: nat, name: Name)
    requires R.RecAt(dirbuf, direct, r)
    ensures ino == r.ino && reclen == r.reclen && name == r.name
  {
    ino := Decode(dirbuf[direct..direct + 8]);
    reclen := Decode(dirbuf[direct + 8..direct + 10]);
    var namelen := Decode(dirbuf[direct + 10..direct + 12]);
    name := dirbuf[direct + 13..direct + 13 + namelen];
  }

  /** One step of a directory scan: a block is read whenever the offset is 512-aligned. */
  method ScanStep(dir: Inode, io: FsIO, p: Pos, ghost g: nat) returns (q: Pos, ino: nat, reclen: nat, name: Name)
    requires Readable(io, dir) && p.off < dir.dinode.size
    requires AtRec(Flat(dir.exts), Bufs(io.blocks, Flat(dir.exts)), dir.recs, g, p)
    ensures g < |dir.recs| && reclen > 0 && p.off == R.Offset(dir.recs, g)
    ensures ino == dir.recs[g].ino && reclen == dir.recs[g].reclen && name == dir.recs[g].name
    ensures q.off == p.off && InBlock(Flat(dir.exts), Bufs(io.blocks, Flat(dir.exts)), q) && |q.dirbuf| == TAR_BLOCKSIZE
    ensures AtRec(Flat(dir.exts), Bufs(io.blocks, Flat(dir.exts)), dir.recs, g + 1,
                  q.(off := q.off + reclen, direct := q.direct + reclen))
  {
    ghost var flat := Flat(dir.exts);
    ghost var bufs := Bufs(io.blocks, flat);
    hide R.Encodes, Flat, R.RecAt, R.Offset, Tiled, Bufs;
    q := p;
    if p.off % TAR_BLOCKSIZE == 0 {
      var dirblkno, dirbuf := ReadDirBlock(dir, io, p.off);
      q := Pos(p.off, dirblkno, dirbuf, 0);
    }
    ScanRec(bufs, dir.recs, g, q.off, q.dirbuf);
    ino, reclen, name := ReadRec(q.dirbuf, q.direct, dir.recs[g]);
    ScanNext(flat, bufs, dir.recs, g, q);
  }

  /** A scan that ran off the end has seen every record. */
  lemma ScanDone(io: FsIO, dir: Inode, g: nat, p: Pos)
    requires Readable(io, dir) && p.off >= dir.dinode.size
    requires AtRec(Flat(dir.exts), Bufs(io.blocks, Flat(dir.exts)), dir.recs, g, p)
    ensures g == |dir.recs|
  {
    EncodesTiles(Bufs(io.blocks, Flat(dir.exts)), dir.recs);
    R.ScanEnd(dir.recs, |Flat(dir.exts)|, g);
  }

  /** The scan of Dir::lookup: inode number of the first live record with that name. */
  method FindEntry(dir: Inode, io: FsIO, name: Name) returns (r: Option<nat>)
    requires Readable(io, dir)
    ensures r == R.Lookup(dir.recs, name)
  {
    hide Readable, R.RecAt, R.Offset, Tiled, Bufs, Flat;
    var p := Pos(0, 0, [], 0);
    var endoff := dir.dinode.size;
    ghost var g := 0;
    ScanStart(io, dir, p);
    while p.off < endoff
      invariant AtRec(Flat(dir.exts), Bufs(io.blocks, Flat(dir.exts)), dir.recs, g, p)
      invariant forall h :: 0 <= h < g ==> !R.Matches(dir.recs[h], name)
      decreases endoff - p.off
    {
      var q, ino, reclen, name' := ScanStep(dir, io, p, g);
      if ino != TARBLK_NONE && |name'| == |name| && name' == name {
        return Some(ino);
      }
      p := q.(off := q.off + reclen, direct := q.direct + reclen);
      g := g + 1;
    }
    ScanDone(io, dir, g, p);
    return None;
  }

  lemma ScanStart(io: FsIO, dir: Inode, p: Pos)
    requires p.off == 0
    ensures AtRec(Flat(dir.exts), Bufs(io.blocks, Flat(dir.exts)), dir.recs, 0, p)
  {
  }

  /** Dir::searchFreeSpace: the first record with room for the name is copied out with its block. */
  method SearchFreeSpace(dir: Inode, io: FsIO, name: Name, dfs: DirFreeSpace)
    requires Readable(io, dir) && dfs.dirbuf.Length == TAR_BLOCKSIZE
    requires dfs.off == TARBLK_NONE && dir.dinode.size < TARBLK_NONE
    modifies dfs, dfs.dirbuf
    ensures FreeSpaceAt(Bufs(io.blocks, Flat(dir.exts)), Flat(dir.exts), dir.recs, DirentSize(|name|),
                        dfs.off, dfs.blkno, dfs.dirbuf[..])
  {
    var off, blkno, dirbuf := ScanFreeSpace(dir, io, DirentSize(|name|));
    if off != TARBLK_NONE {
      dfs.off := off;
      dfs.blkno := blkno;
      Store(dfs.dirbuf, 0, dirbuf);
      assert dfs.dirbuf[..] == dfs.dirbuf[..][0..TAR_BLOCKSIZE] == dirbuf;
    }
  }

  /** `off` is the byte offset of the first record with `need` bytes of room, TARBLK_NONE if there is none. */
  ghost predicate FreeSpaceAt(bufs: seq<seq<byte>>, flat: seq<nat>, recs: seq<R.Rec>, need: nat,
                              off: nat, blkno: nat, dirbuf: seq<byte>)
    requires |bufs| == |flat|
  {
    var g := R.FindRoom(recs, need);
    if g == |recs| then off == TARBLK_NONE
    else
      && off == R.Offset(recs, g) < TARBLK_NONE
      && off / TAR_BLOCKSIZE < |flat|
      && blkno == flat[off / TAR_BLOCKSIZE]
      && dirbuf == bufs[off / TAR_BLOCKSIZE]
      && |dirbuf| == TAR_BLOCKSIZE
  }

  method ScanFreeSpace(dir: Inode, io: FsIO, needspace: nat) returns (off: nat, dirblkno: nat, dirbuf: seq<byte>)
    requires Readable(io, dir) && dir.dinode.size < TARBLK_NONE && needspace > 0
    ensures FreeSpaceAt(Bufs(io.blocks, Flat(dir.exts)), Flat(dir.exts), dir.recs, needspace, off, dirblkno, dirbuf)
  {
    hide Readable, R.RecAt, R.Offset, Tiled, Bufs, Flat;
    var p := Pos(0, 0, [], 0);
    var endoff := dir.dinode.size;
    ghost var g := 0;
    ScanStart(io, dir, p);
    while p.off < endoff
      invariant AtRec(Flat(dir.exts), Bufs(io.blocks, Flat(dir.exts)), dir.recs, g, p)
      invariant forall h :: 0 <= h < g ==> !R.HasRoom(dir.recs[h], needspace)
      decreases endoff - p.off
    {
      var q, ino, reclen, name := ScanStep(dir, io, p, g);
      var freesize: int := reclen;
      if ino != TARBLK_NONE {
        freesize := freesize - DirectSize(|name|);
      }
      if freesize > 0 && freesize >= needspace {
        return q.off, q.dirblkno, q.dirbuf;
      }
      p := q.(off := q.off + reclen, direct := q.direct + reclen);
      g := g + 1;
    }
    ScanDone(io, dir, g, p);
    return TARBLK_NONE, 0, [];
  }

  // ----- adding entries

  /** Inode::getDirFtype */
  function FtypeCode(fmt: Ftype): byte {
    match fmt
    case REG => 1
    case DIR => 2
    case LNK => 3
    case _ => 0
  }

  /** Where the record of an added entry is. */
  lemma AddedAt(recs: seq<R.Rec>, name: Name, ino: nat, ftype: byte) returns (g: nat)
    ensures var s := R.Added(recs, name, ino, ftype);
            g < |s| && s[g].ino == ino && s[g].name == name && s[g].ftype == ftype
  {
    g := R.FindRoom(recs, DirentSize(|name|));
    if g < |recs| && recs[g].Live() {
      SizeMacrosAgree(|recs[g].name|);
      g := g + 1;
    }
  }

  /** The bytes an added entry has on disk: d_ino, d_namelen, d_ftype and d_name. */
  lemma AddedBytes(bufs: seq<seq<byte>>, recs: seq<R.Rec>, name: Name, ino: nat, fmt: Ftype) returns (k: nat, at: nat)
    requires R.Encodes(bufs, R.Added(recs, name, ino, FtypeCode(fmt)))
    ensures k < |bufs| && at + 13 + |name| <= |bufs[k]| == 512
    ensures forall i :: 0 <= i < 8 ==> bufs[k][at + i] as nat == ino / Pow256(i) % 256
    ensures bufs[k][at + 10] as nat == |name| % 256 && bufs[k][at + 11] as nat == |name| / 256
    ensures bufs[k][at + 12] == if fmt == REG then 1 else if fmt == DIR then 2 else if fmt == LNK then 3 else 0
    ensures forall i :: 0 <= i < |name| ==> bufs[k][at + 13 + i] == name[i]
  {
    var s := R.Added(recs, name, ino, FtypeCode(fmt));
    var g := AddedAt(recs, name, ino, FtypeCode(fmt));
    hide R.Added, R.RecAt;
    assert R.Stored(bufs, s, g) && R.Fits(s, g);
    k, at := R.Offset(s, g) / TAR_BLOCKSIZE, R.Offset(s, g) % TAR_BLOCKSIZE;
    hide R.Tiles, R.Offset, Pow256;
    RecThere(bufs[k], at, s[g]);
    RecBytes(bufs[k], at, s[g]);
  }

  lemma RecThere(buf: seq<byte>, at: nat, r: R.Rec)
    requires R.RecAt(buf, at, r)
    ensures at + 13 + |r.name| <= |buf|
  {
  }

  /** The inode is a directory in good order whose blocks are all its own. */
  ghost predicate DirInv(fs: FsIO, dir: Inode)
    reads fs, dir
  {
    && dir.MapOk(fs) && Tiled(dir.exts)
    && dir.dinode.fmt == DIR && dir.intact
    && DirOk(fs.V(), dir.ino, dir.dinode, dir.exts, dir.recs)
  }

  lemma DirReadable(fs: FsIO, dir: Inode)
    requires fs.Ok() && DirInv(fs, dir)
    ensures Readable(fs, dir)
  {
    dir.MapShape(fs);
    var flat := Flat(dir.exts);
    forall k | 0 <= k < |flat|
      ensures flat[k] < |fs.blocks|
    {
      assert fs.owner[flat[k]] == DirData(dir.ino, k);
    }
  }

  /** Rewriting data block `k` of a directory. */
  lemma {:induction false} DirEdited(v: Vol, v': Vol, ino: nat, flat: seq<nat>, k: nat, buf: seq<byte>)
    requires SpaceOk(v) && DirOwned(v, ino, flat) && k < |flat|
    requires flat[k] < |v.blocks| && v' == v.(blocks := v.blocks[flat[k] := DirBlk(buf)])
    ensures DirOwned(v', ino, flat)
    ensures Bufs(v'.blocks, flat) == Bufs(v.blocks, flat)[k := buf]
  {
    forall j | 0 <= j < |flat| && j != k
      ensures flat[j] != flat[k]
    {
      assert v.owner[flat[j]] == DirData(ino, j) && v.owner[flat[k]] == DirData(ino, k);
    }
  }

  lemma DirBlockInUse(v: Vol, ino: nat, flat: seq<nat>, k: nat)
    requires SpaceOk(v) && DirOwned(v, ino, flat) && k < |flat|
    ensures v.org <= flat[k] < |v.blocks| && v.owner[flat[k]] == DirData(ino, k)
  {
  }

  /** Dir::addDirEntry where an existing record has room: the copied block is edited and written back. */
  method AddToBlock(dir: Inode, fs: FsIO, name: Name, dfs: DirFreeSpace, ino: nat, ftype: byte)
    requires fs.Ok() && DirInv(fs, dir)
    requires |name| <= MAXNAMLEN && ino <= TARBLK_NONE
    requires R.FindRoom(dir.recs, DirentSize(|name|)) < |dir.recs|
    requires FreeSpaceAt(Bufs(fs.blocks, Flat(dir.exts)), Flat(dir.exts), dir.recs, DirentSize(|name|),
                         dfs.off, dfs.blkno, dfs.dirbuf[..])
    modifies dir`recs, dfs.dirbuf, fs`blocks, fs`blks, fs`sb
    ensures fs.Ok() && DirInv(fs, dir)
    ensures dir.recs == R.Added(old(dir.recs), name, ino, ftype)
    ensures Frame(old(fs.V()), fs.V(), {KDir(dir.ino), KChain(dir.ino)}) && |fs.blocks| == |old(fs.blocks)|
  {
    hide SpaceOk, Frame, R.Encodes, R.Added, R.FindRoom, Flat, Tiled, Increasing, DirOwned, Bufs, ExtRep, ChainOwned;
    ghost var k := dfs.off / TAR_BLOCKSIZE;
    ghost var recs := R.Added(dir.recs, name, ino, ftype);
    EditInPlace(Bufs(fs.blocks, Flat(dir.exts)), dir.recs, dfs.off, dfs.dirbuf, name, ino, ftype);
    RewriteDirBlock(dir, fs, dfs.blkno, dfs.dirbuf, k, recs);
  }

  /** An edited block goes back to where it was read from. */
  method RewriteDirBlock(dir: Inode, fs: FsIO, blkno: nat, buf: array<byte>, ghost k: nat, ghost recs: seq<R.Rec>)
    requires fs.Ok() && DirInv(fs, dir) && k < |Flat(dir.exts)| && blkno == Flat(dir.exts)[k]
    requires R.Encodes(Bufs(fs.blocks, Flat(dir.exts))[k := buf[..]], recs)
    modifies dir`recs, fs`blocks, fs`blks, fs`sb
    ensures fs.Ok() && DirInv(fs, dir) && dir.recs == recs
    ensures Frame(old(fs.V()), fs.V(), {KDir(dir.ino), KChain(dir.ino)}) && |fs.blocks| == |old(fs.blocks)|
  {
    hide SpaceOk, Frame, ExtRep, ChainOwned, R.Encodes, Flat, Tiled, Increasing, DirOwned, Bufs;
    ghost var flat := Flat(dir.exts);
    ghost var v := fs.V();
    DirBlockInUse(v, dir.ino, flat, k);
    fs.Update(DirBlk(buf[..]), blkno);
    DirEdited(v, fs.V(), dir.ino, flat, k, buf[..]);
    FrameWeaken(v, fs.V(), {KDir(dir.ino)}, {KDir(dir.ino), KChain(dir.ino)});
    RepFrame(v, fs.V(), {KDir(dir.ino)}, dir.ino, dir.dinode, dir.exts, dir.chain);
    dir.recs := recs;
  }

  /** The byte edits of addDirEntry on the copied block. */
  method EditInPlace(ghost bufs: seq<seq<byte>>, ghost recs: seq<R.Rec>, off: nat, dirbuf: array<byte>,
                     name: Name, ino: nat, ftype: byte)
    requires R.Encodes(bufs, recs) && R.FindRoom(recs, DirentSize(|name|)) < |recs|
    requires off == R.Offset(recs, R.FindRoom(recs, DirentSize(|name|))) && off / TAR_BLOCKSIZE < |bufs|
    requires dirbuf[..] == bufs[off / TAR_BLOCKSIZE]
    requires |name| <= MAXNAMLEN && ino <= TARBLK_NONE
    modifies dirbuf
    ensures R.Encodes(bufs[off / TAR_BLOCKSIZE := dirbuf[..]], R.Added(recs, name, ino, ftype))
  {
    hide R.Encodes, R.FindRoom, R.Offset, R.Split, R.RecAt, SameOutside, R.Stored, R.Fits, Decode, DirentSize,
         DirectSize;
    ghost var g := R.FindRoom(recs, DirentSize(|name|));
    ghost var r := recs[g];
    RoomAt(bufs, recs, g, |name|);
    var inx := off % TAR_BLOCKSIZE;
    ghost var buf := dirbuf[..];
    RecFields(buf, inx, r);
    assert buf[inx..inx + 8] == dirbuf[inx..inx + 8];
    if Decode(dirbuf[inx..inx + 8]) == TARBLK_NONE {
      ReuseInPlace(dirbuf, inx, ino, ftype, name, r);
      ReuseEncodes(bufs, recs, g, R.Rec(ino, r.reclen, name, ftype), dirbuf[..]);
    } else {
      SplitInPlace(dirbuf, inx, ino, ftype, name, r);
      SplitEncodes(bufs, recs, g, R.Rec(ino, r.reclen - DirentSize(|r.name|), name, ftype), dirbuf[..]);
    }
  }

  /** A record with room for a name of `len` bytes: where it lies, and that the new entry fits in or behind it. */
  lemma RoomAt(bufs: seq<seq<byte>>, recs: seq<R.Rec>, g: nat, len: nat)
    requires R.Encodes(bufs, recs) && g < |recs| && R.HasRoom(recs[g], DirentSize(len))
    ensures var o, r := R.Offset(recs, g), recs[g];
            && o / TAR_BLOCKSIZE < |bufs| && R.RecAt(bufs[o / TAR_BLOCKSIZE], o % TAR_BLOCKSIZE, r)
            && |bufs[o / TAR_BLOCKSIZE]| == TAR_BLOCKSIZE && o % TAR_BLOCKSIZE + r.reclen <= TAR_BLOCKSIZE
            && r.Ok() && 0 < DirentSize(len)
            && DirentSize(len) + (if r.Live() then DirentSize(|r.name|) else 0) <= r.reclen
  {
    assert R.Stored(bufs, recs, g) && R.Fits(recs, g);
    hide R.RecAt, R.Offset, DirentSize, DirectSize;
    SizeMacrosAgree(len);
    SizeMacrosAgree(|recs[g].name|);
  }

  /** "get new entry": a block is issued to the directory and mapped behind its last one. */
  method AppendDirBlock(dir: Inode, fs: FsIO, dirmgr: SpaceManager, iexmgr: SpaceManager) returns (blkno: nat)
    requires fs.Ok() && dirmgr.Ok(fs) && dirmgr.id == DIRMGR && iexmgr.Ok(fs) && iexmgr.id == IEXMGR
    requires |fs.blocks| + 2 * BULKS <= TARBLK_NONE
    requires dir.MapOk(fs) && Tiled(dir.exts) && Increasing(Flat(dir.exts))
    requires DirOwned(fs.V(), dir.ino, Flat(dir.exts)) && dir.dinode.blocks == |Flat(dir.exts)|
    modifies dir`isMod, dir`dinode, dir`exts, dir`chain, fs, dirmgr, iexmgr
    ensures fs.Ok() && dirmgr.Ok(fs) && iexmgr.Ok(fs) && dir.isMod
    ensures dir.MapOk(fs) && Tiled(dir.exts) && Increasing(Flat(dir.exts))
    ensures Flat(dir.exts) == old(Flat(dir.exts)) + [blkno]
    ensures DirOwned(fs.V(), dir.ino, Flat(dir.exts))
    ensures Bufs(fs.blocks, old(Flat(dir.exts))) == old(Bufs(fs.blocks, Flat(dir.exts)))
    ensures Frame(old(fs.V()), fs.V(), {KDir(dir.ino), KChain(dir.ino)})
    ensures fs.pools[DINODEMGR] == old(fs.pools)[DINODEMGR]
    ensures |fs.blocks| <= |old(fs.blocks)| + 2 * BULKS
    ensures dir.dinode == old(dir.dinode).(nExtents := dir.dinode.nExtents, direct := dir.dinode.direct,
                                           rootIndExt := dir.dinode.rootIndExt)
  {
    hide SpaceOk, Frame, ExtRep, ChainOwned, Issued, IssuedAllBelow, DirOwned, Flat, Tiled, Increasing, Bufs;
    ghost var v := fs.V();
    ghost var flat := Flat(dir.exts);
    ghost var exts := dir.exts;
    blkno := dirmgr.AllocBlock(fs, DirData(dir.ino, |flat|));
    ghost var v1 := fs.V();
    DirIssued(v, v1, dir.ino, flat, blkno);
    RepFrame(v, v1, {KDir(dir.ino)}, dir.ino, dir.dinode, dir.exts, dir.chain);
    var de := Ext(dir.dinode.blocks, blkno, 1);
    dir.InsBlock(fs, iexmgr, de);
    AppendedFlat(exts, flat, de);
    DirOwnedFrame(v1, fs.V(), {KChain(dir.ino)}, dir.ino, flat + [blkno]);
    BufsPrefix(v1.blocks, fs.blocks, flat, [blkno]);
    FrameTrans(v, v1, fs.V(), {KDir(dir.ino)}, {KChain(dir.ino)});
    assert {KDir(dir.ino)} + {KChain(dir.ino)} == {KDir(dir.ino), KChain(dir.ino)};
  }

  /** The issued block is above all data blocks the directory has. */
  lemma DirIssued(v: Vol, v': Vol, ino: nat, flat: seq<nat>, b: nat)
    requires SpaceOk(v) && SpaceOk(v') && DirOwned(v, ino, flat) && Increasing(flat)
    requires Issued(v, v', DIRMGR, b, DirData(ino, |flat|)) && IssuedAllBelow(v, DIRMGR, b)
    ensures DirOwned(v', ino, flat + [b]) && Increasing(flat + [b])
    ensures forall k :: 0 <= k < |flat| ==> flat[k] < b
    ensures Bufs(v'.blocks, flat) == Bufs(v.blocks, flat)
  {
    SpaceShape(v);
    SpaceShape(v');
    hide SpaceOk;
    forall k | 0 <= k < |flat|
      ensures flat[k] < b && flat[k] < |v.blocks|
    {
      assert v.owner[flat[k]] == DirData(ino, k);
    }
  }

  lemma AppendedFlat(exts: seq<Ext>, flat: seq<nat>, de: Ext)
    requires Tiled(exts) && flat == Flat(exts) && Increasing(flat)
    requires de.off == |flat| && de.nblks == 1 && (forall k :: 0 <= k < |flat| ==> flat[k] < de.blkno)
    ensures Tiled(InsExt(exts, de)) && Flat(InsExt(exts, de)) == flat + [de.blkno]
  {
    AboveOnlyLast(exts, de.blkno);
    InsExtAppends(exts, de);
    assert Blocks(de) == [de.blkno];
  }

  lemma DirOwnedFrame(v: Vol, v': Vol, t: set<Class>, ino: nat, flat: seq<nat>)
    requires Frame(v, v', t) && KDir(ino) !in t && DirOwned(v, ino, flat)
    ensures DirOwned(v', ino, flat)
    ensures Bufs(v'.blocks, flat) == Bufs(v.blocks, flat)
  {
    forall k | 0 <= k < |flat|
      ensures flat[k] < |v'.owner| && v'.owner[flat[k]] == DirData(ino, k) && v'.blocks[flat[k]] == v.blocks[flat[k]]
    {
      assert v.owner[flat[k]] == DirData(ino, k);
    }
  }

  lemma BufsPrefix(blocks: seq<Block>, blocks': seq<Block>, flat: seq<nat>, more: seq<nat>)
    requires Bufs(blocks', flat + more) == Bufs(blocks, flat + more)
    ensures Bufs(blocks', flat) == Bufs(blocks, flat)
  {
    assert Bufs(blocks, flat) == Bufs(blocks, flat + more)[..|flat|];
    assert Bufs(blocks', flat) == Bufs(blocks', flat + more)[..|flat|];
  }

  /** The new last block of a directory is written. */
  method WriteLast(dir: Inode, fs: FsIO, blkno: nat, buf: array<byte>, ghost flat: seq<nat>)
    requires fs.Ok() && dir.MapOk(fs) && DirOwned(fs.V(), dir.ino, flat + [blkno])
    modifies fs`blocks, fs`blks, fs`sb
    ensures fs.Ok() && dir.MapOk(fs) && DirOwned(fs.V(), dir.ino, flat + [blkno])
    ensures Bufs(fs.blocks, flat + [blkno]) == Bufs(old(fs.blocks), flat) + [buf[..]]
    ensures Frame(old(fs.V()), fs.V(), {KDir(dir.ino), KChain(dir.ino)}) && |fs.blocks| == |old(fs.blocks)|
  {
    ghost var v := fs.V();
    ghost var all := flat + [blkno];
    DirBlockInUse(v, dir.ino, all, |flat|);
    hide SpaceOk, Frame, ExtRep, ChainOwned, DirOwned, Bufs;
    fs.Update(DirBlk(buf[..]), blkno);
    DirEdited(v, fs.V(), dir.ino, all, |flat|, buf[..]);
    BufsLast(v.blocks, flat, blkno, buf[..]);
    FrameWeaken(v, fs.V(), {KDir(dir.ino)}, {KDir(dir.ino), KChain(dir.ino)});
    RepFrame(v, fs.V(), {KDir(dir.ino)}, dir.ino, dir.dinode, dir.exts, dir.chain);
  }

  lemma BufsLast(blocks: seq<Block>, flat: seq<nat>, b: nat, buf: seq<byte>)
    ensures Bufs(blocks, flat + [b])[|flat| := buf] == Bufs(blocks, flat) + [buf]
  {
  }

  /** Dir::addDirEntry where no record has room: a new block with one record. */
  method AddInNewBlock(dir: Inode, fs: FsIO, dirmgr: SpaceManager, iexmgr: SpaceManager,
                       name: Name, dfs: DirFreeSpace, ino: nat, ftype: byte)
    requires fs.Ok() && dirmgr.Ok(fs) && dirmgr.id == DIRMGR && iexmgr.Ok(fs) && iexmgr.id == IEXMGR
    requires |fs.blocks| + 2 * BULKS <= TARBLK_NONE
    requires DirInv(fs, dir) && dfs.dirbuf.Length == TAR_BLOCKSIZE
    requires |name| <= MAXNAMLEN && ino <= TARBLK_NONE
    requires R.FindRoom(dir.recs, DirentSize(|name|)) == |dir.recs|
    modifies dir, dfs`blkno, dfs.dirbuf, fs, dirmgr, iexmgr
    ensures fs.Ok() && dirmgr.Ok(fs) && iexmgr.Ok(fs) && DirInv(fs, dir) && dir.isMod
    ensures dir.recs == R.Added(old(dir.recs), name, ino, ftype)
    ensures Frame(old(fs.V()), fs.V(), {KDir(dir.ino), KChain(dir.ino)})
    ensures fs.pools[DINODEMGR] == old(fs.pools)[DINODEMGR]
    ensures |fs.blocks| <= |old(fs.blocks)| + 2 * BULKS
    ensures SameAttrs(dir.dinode, old(dir.dinode))
  {
    ghost var flat := Flat(dir.exts);
    ghost var v := fs.V();
    R.AddedAppends(dir.recs, name, ino, ftype);
    hide SpaceOk, Frame, ExtRep, ChainOwned, Issued, DirOwned, Flat, Tiled, Increasing, R.Encodes, R.FindRoom, Bufs,
         R.Added;
    dfs.blkno := AppendDirBlock(dir, fs, dirmgr, iexmgr);
    ghost var v1 := fs.V();
    FillNewBlock(dir, fs, dfs.blkno, dfs.dirbuf, name, ino, ftype, flat);
    FrameTwice(v, v1, fs.V(), {KDir(dir.ino), KChain(dir.ino)});
  }

  /** The block that was mapped behind `flat` gets its one record, and the directory its new size. */
  method FillNewBlock(dir: Inode, fs: FsIO, blkno: nat, buf: array<byte>, name: Name, ino: nat, ftype: byte,
                      ghost flat: seq<nat>)
    requires fs.Ok() && dir.MapOk(fs) && buf.Length == TAR_BLOCKSIZE
    requires Tiled(dir.exts) && Flat(dir.exts) == flat + [blkno] && Increasing(Flat(dir.exts))
    requires DirOwned(fs.V(), dir.ino, Flat(dir.exts)) && R.Encodes(Bufs(fs.blocks, flat), dir.recs)
    requires dir.dinode.fmt == DIR && dir.intact
    requires dir.dinode.blocks == |flat| && dir.dinode.size == TAR_BLOCKSIZE * |flat|
    requires |name| <= MAXNAMLEN && ino <= TARBLK_NONE
    modifies dir`dinode, dir`recs, buf, fs`blocks, fs`blks, fs`sb
    ensures fs.Ok() && DirInv(fs, dir)
    ensures dir.recs == old(dir.recs) + [R.Rec(ino, TAR_BLOCKSIZE, name, ftype)]
    ensures Frame(old(fs.V()), fs.V(), {KDir(dir.ino), KChain(dir.ino)}) && |fs.blocks| == |old(fs.blocks)|
    ensures dir.dinode == old(dir.dinode).(blocks := dir.dinode.blocks, size := dir.dinode.size)
  {
    hide SpaceOk, Frame, ExtRep, ChainOwned, DirOwned, Flat, Tiled, Increasing, R.Encodes, Bufs;
    // the block's old image, a free-list link, is read into the buffer; no record byte of it survives
    FillBlock(buf, ino, ftype, name);
    RepAttrs(fs.blocks, dir.dinode,
             dir.dinode.(blocks := dir.dinode.blocks + 1, size := dir.dinode.size + TAR_BLOCKSIZE),
             dir.exts, dir.chain);
    dir.dinode := dir.dinode.(blocks := dir.dinode.blocks + 1);
    dir.dinode := dir.dinode.(size := dir.dinode.size + TAR_BLOCKSIZE);
    AppendEncodes(Bufs(fs.blocks, flat), dir.recs, R.Rec(ino, TAR_BLOCKSIZE, name, ftype), buf[..]);
    dir.recs := dir.recs + [R.Rec(ino, TAR_BLOCKSIZE, name, ftype)];
    WriteLast(dir, fs, blkno, buf, flat);
  }

  /** Only sizes and extents differ. */
  predicate SameAttrs(d: Dinode, d0: Dinode) {
    d == d0.(nExtents := d.nExtents, direct := d.direct, rootIndExt := d.rootIndExt, blocks := d.blocks, size := d.size)
  }

  /** Dir::addDirEntry: the name is added where searchFreeSpace found room, else in a new block. */
  method AddDirEntry(dir: Inode, fs: FsIO, dirmgr: SpaceManager, iexmgr: SpaceManager,
                     name: Name, dfs: DirFreeSpace, inode: Inode)
    requires fs.Ok() && dirmgr.Ok(fs) && dirmgr.id == DIRMGR && iexmgr.Ok(fs) && iexmgr.id == IEXMGR
    requires |fs.blocks| + 2 * BULKS <= TARBLK_NONE
    requires DirInv(fs, dir) && dfs.dirbuf.Length == TAR_BLOCKSIZE && inode != dir
    requires |name| <= MAXNAMLEN && inode.ino <= TARBLK_NONE
    requires FreeSpaceAt(Bufs(fs.blocks, Flat(dir.exts)), Flat(dir.exts), dir.recs, DirentSize(|name|),
                         dfs.off, dfs.blkno, dfs.dirbuf[..])
    modifies dir, dfs, dfs.dirbuf, fs, dirmgr, iexmgr
    ensures fs.Ok() && dirmgr.Ok(fs) && iexmgr.Ok(fs) && DirInv(fs, dir) && dir.isMod
    ensures dir.recs == R.Added(old(dir.recs), name, inode.ino, FtypeCode(inode.dinode.fmt))
    ensures Frame(old(fs.V()), fs.V(), {KDir(dir.ino), KChain(dir.ino)})
    ensures fs.pools[DINODEMGR] == old(fs.pools)[DINODEMGR]
    ensures |fs.blocks| <= |old(fs.blocks)| + 2 * BULKS
    ensures SameAttrs(dir.dinode.(nlink := old(dir.dinode).nlink), old(dir.dinode))
    ensures dir.dinode.nlink == old(dir.dinode).nlink + if inode.IsDir() then 1 else 0
  {
    hide SpaceOk, Frame, ExtRep, ChainOwned, DirOwned, Flat, Tiled, Increasing, R.Encodes, R.FindRoom, R.Added, Bufs;
    dir.isMod := true;
    if inode.IsDir() {
      RepAttrs(fs.blocks, dir.dinode, dir.dinode.(nlink := dir.dinode.nlink + 1), dir.exts, dir.chain);
      dir.dinode := dir.dinode.(nlink := dir.dinode.nlink + 1);
    }
    if dfs.off != TARBLK_NONE {
      AddToBlock(dir, fs, name, dfs, inode.ino, FtypeCode(inode.dinode.fmt));
      return;
    }
    AddInNewBlock(dir, fs, dirmgr, iexmgr, name, dfs, inode.ino, FtypeCode(inode.dinode.fmt));
  }

  /** Dir::dirInit: the first block of a new directory with its two dot records. */
  method DirInit(dir: Inode, fs: FsIO, dirmgr: SpaceManager, iexmgr: SpaceManager)
    requires fs.Ok() && dirmgr.Ok(fs) && dirmgr.id == DIRMGR && iexmgr.Ok(fs) && iexmgr.id == IEXMGR
    requires |fs.blocks| + 2 * BULKS <= TARBLK_NONE
    requires dir.MapOk(fs) && dir.exts == [] && dir.dinode.blocks == 0 && dir.dinode.fmt == DIR
    requires DirOwned(fs.V(), dir.ino, []) && dir.ino <= TARBLK_NONE && dir.pino <= TARBLK_NONE
    modifies dir, fs, dirmgr, iexmgr
    ensures fs.Ok() && dirmgr.Ok(fs) && iexmgr.Ok(fs) && DirInv(fs, dir) && dir.isMod
    ensures dir.recs == DotRecs(dir.ino, dir.pino)
    ensures Frame(old(fs.V()), fs.V(), {KDir(dir.ino), KChain(dir.ino)})
    ensures fs.pools[DINODEMGR] == old(fs.pools)[DINODEMGR]
    ensures |fs.blocks| <= |old(fs.blocks)| + 2 * BULKS
    ensures SameAttrs(dir.dinode.(nlink := old(dir.dinode).nlink), old(dir.dinode))
    ensures dir.dinode.nlink == old(dir.dinode).nlink + 1
  {
    DirEmpty(fs, dir);
    hide SpaceOk, Frame, ExtRep, ChainOwned, DirOwned, Flat, Tiled, Increasing, R.Encodes, Bufs;
    ghost var v := fs.V();
    dir.isMod := true;
    var blkno := AppendDirBlock(dir, fs, dirmgr, iexmgr);
    assert Flat(dir.exts) == [blkno];
    ghost var v1 := fs.V();
    InitBlock(dir, fs, blkno);
    FrameTwice(v, v1, fs.V(), {KDir(dir.ino), KChain(dir.ino)});
  }

  /** The one block of a new directory is written, and the directory gets its size and its second link. */
  method InitBlock(dir: Inode, fs: FsIO, blkno: nat)
    requires fs.Ok() && dir.MapOk(fs) && Tiled(dir.exts) && dir.dinode.fmt == DIR && Flat(dir.exts) == [blkno]
    requires Increasing(Flat(dir.exts)) && DirOwned(fs.V(), dir.ino, Flat(dir.exts))
    requires dir.ino <= TARBLK_NONE && dir.pino <= TARBLK_NONE
    modifies dir`dinode, dir`recs, dir`intact, fs`blocks, fs`blks, fs`sb
    ensures fs.Ok() && DirInv(fs, dir) && dir.recs == DotRecs(dir.ino, dir.pino)
    ensures Frame(old(fs.V()), fs.V(), {KDir(dir.ino), KChain(dir.ino)}) && |fs.blocks| == |old(fs.blocks)|
    ensures dir.dinode == old(dir.dinode).(nlink := old(dir.dinode).nlink + 1, blocks := 1, size := TAR_BLOCKSIZE)
  {
    hide SpaceOk, Frame, ExtRep, ChainOwned, DirOwned, R.Encodes, Flat, Tiled, Increasing, Bufs, DirInv;
    var buf := WriteDots(dir, fs, blkno);
    FinishInit(dir, fs);
  }

  /** The last three assignments of dirInit. */
  method FinishInit(dir: Inode, fs: FsIO)
    requires dir.MapOk(fs) && Tiled(dir.exts) && dir.dinode.fmt == DIR
    requires |Flat(dir.exts)| == 1 && Increasing(Flat(dir.exts)) && DirOwned(fs.V(), dir.ino, Flat(dir.exts))
    requires R.Encodes(Bufs(fs.blocks, Flat(dir.exts)), DotRecs(dir.ino, dir.pino))
    modifies dir`dinode, dir`recs, dir`intact
    ensures DirInv(fs, dir) && dir.recs == DotRecs(dir.ino, dir.pino)
    ensures dir.dinode == old(dir.dinode).(nlink := old(dir.dinode).nlink + 1, blocks := 1, size := TAR_BLOCKSIZE)
  {
    hide ExtRep, ChainOwned, DirOwned, R.Encodes, Flat, Tiled, Increasing, Bufs;
    RepAttrs(fs.blocks, dir.dinode,
             dir.dinode.(nlink := dir.dinode.nlink + 1, blocks := 1, size := TAR_BLOCKSIZE), dir.exts, dir.chain);
    dir.dinode := dir.dinode.(nlink := dir.dinode.nlink + 1);
    dir.dinode := dir.dinode.(blocks := 1);
    dir.dinode := dir.dinode.(size := TAR_BLOCKSIZE);
    dir.recs, dir.intact := DotRecs(dir.ino, dir.pino), true;
  }

  lemma DirEmpty(fs: FsIO, dir: Inode)
    requires dir.exts == []
    ensures Flat(dir.exts) == [] && Tiled(dir.exts) && Increasing(Flat(dir.exts))
  {
  }

  method WriteDots(dir: Inode, fs: FsIO, blkno: nat) returns (buf: array<byte>)
    requires fs.Ok() && dir.MapOk(fs) && DirOwned(fs.V(), dir.ino, [blkno])
    requires dir.ino <= TARBLK_NONE && dir.pino <= TARBLK_NONE
    modifies fs`blocks, fs`blks, fs`sb
    ensures fs.Ok() && dir.MapOk(fs) && DirOwned(fs.V(), dir.ino, [blkno])
    ensures R.Encodes(Bufs(fs.blocks, [blkno]), DotRecs(dir.ino, dir.pino))
    ensures Frame(old(fs.V()), fs.V(), {KDir(dir.ino), KChain(dir.ino)}) && |fs.blocks| == |old(fs.blocks)|
  {
    hide SpaceOk, Frame, ExtRep, ChainOwned, DirOwned, R.Encodes;
    ghost var blocks := fs.blocks;
    buf := new byte[TAR_BLOCKSIZE];
    DotBlock(buf, dir.ino, dir.pino);
    assert [] + [blkno] == [blkno];
    WriteLast(dir, fs, blkno, buf, []);
    assert Bufs(blocks, []) + [buf[..]] == [buf[..]];
  }

  // ----- a directory that maps archive blocks

  /** The inode maps archive blocks, through its dinode alone. */
  ghost predicate MapsArchive(dir: Inode, org: nat)
    reads dir
  {
    InArchive(dir.exts, org) && Tiled(dir.exts) && dir.chain == [] && ExtRep([], dir.dinode, dir.exts, [])
  }

  /** What the directory maps in the archive reads as records. */
  ghost predicate ReadsAs(tar: seq<Block>, dir: Inode, recs: seq<R.Rec>)
    reads dir
  {
    dir.dinode.size == TAR_BLOCKSIZE * |Flat(dir.exts)| && R.Encodes(Bufs(tar, Flat(dir.exts)), recs)
  }

  /** The file still starts with the bytes of the archive. */
  ghost predicate ArchiveKept(fs: FsIO)
    reads fs
  {
    |fs.blocks| >= |fs.tar| && forall b :: 0 <= b < |fs.tar| ==> BytesOf(fs.blocks[b]) == BytesOf(fs.tar[b])
  }

  /** Such a directory can be read whatever was appended behind the archive. */
  lemma AstrayReads(fs: FsIO, dir: Inode)
    requires fs.Ok() && TAR_BLOCKSIZE * |fs.blocks| < TARBLK_NONE
    requires MapsArchive(dir, fs.orgblks) && ReadsAs(fs.tar, dir, dir.recs)
    ensures Readable(fs, dir) && dir.dinode.size < TARBLK_NONE
    ensures R.Encodes(Bufs(fs.blocks, Flat(dir.exts)), dir.recs)
    ensures forall k :: 0 <= k < |Flat(dir.exts)| ==> Flat(dir.exts)[k] < fs.orgblks == |fs.tar| <= |fs.blocks|
  {
    hide R.Encodes, Tiled;
    FlatInArchive(dir.exts, fs.orgblks);
    RepNoChain([], fs.blocks, dir.dinode, dir.exts);
    hide ExtRep;
    assert forall b :: 0 <= b < fs.orgblks ==> fs.tar[b] == fs.blocks[..fs.orgblks][b];
    assert Bufs(fs.tar, Flat(dir.exts)) == Bufs(fs.blocks, Flat(dir.exts));
  }

  /**
    * searchFreeSpace and addDirEntry there: the archive is overwritten if and only if one of the records it reads as
    * has room for the name.
    */
  method AddAstray(dir: Inode, fs: FsIO, dirmgr: SpaceManager, iexmgr: SpaceManager, name: Name, inode: Inode)
    requires fs.Ok() && dirmgr.Ok(fs) && dirmgr.id == DIRMGR && iexmgr.Ok(fs) && iexmgr.id == IEXMGR
    requires TAR_BLOCKSIZE * (|fs.blocks| + 2 * BULKS) <= TARBLK_NONE
    requires MapsArchive(dir, fs.orgblks) && ReadsAs(fs.tar, dir, dir.recs)
    requires |name| <= MAXNAMLEN && inode.ino < TARBLK_NONE && inode != dir
    modifies dir, fs, dirmgr, iexmgr
    ensures ArchiveKept(fs) <==> R.FindRoom(old(dir.recs), DirentSize(|name|)) == |old(dir.recs)|
    ensures |fs.blocks| >= |fs.tar|
  {
    hide Readable, R.Encodes, R.FindRoom, SpaceOk, Bufs, Flat, ArchiveKept, ExtRep;
    AstrayReads(fs, dir);
    var dfs := new DirFreeSpace();
    SearchFreeSpace(dir, fs, name, dfs);
    dir.isMod := true;
    if inode.IsDir() {
      RepAttrs([], dir.dinode, dir.dinode.(nlink := dir.dinode.nlink + 1), dir.exts, []);
      dir.dinode := dir.dinode.(nlink := dir.dinode.nlink + 1);
    }
    if dfs.off != TARBLK_NONE {
      AddToArchive(dir, fs, name, dfs, inode.ino, FtypeCode(inode.dinode.fmt));
    } else {
      AddBehind(dir, fs, dirmgr, iexmgr, name, dfs, inode.ino, FtypeCode(inode.dinode.fmt));
    }
  }

  /** The copied archive block is edited and written back. */
  method AddToArchive(dir: Inode, fs: FsIO, name: Name, dfs: DirFreeSpace, ino: nat, ftype: byte)
    requires fs.orgblks <= fs.blks && fs.orgblks == |fs.tar| <= |fs.blocks| && fs.tar == fs.blocks[..fs.orgblks]
    requires R.Encodes(Bufs(fs.blocks, Flat(dir.exts)), dir.recs)
    requires forall k :: 0 <= k < |Flat(dir.exts)| ==> Flat(dir.exts)[k] < fs.orgblks
    requires |name| <= MAXNAMLEN && ino < TARBLK_NONE
    requires R.FindRoom(dir.recs, DirentSize(|name|)) < |dir.recs|
    requires FreeSpaceAt(Bufs(fs.blocks, Flat(dir.exts)), Flat(dir.exts), dir.recs, DirentSize(|name|),
                         dfs.off, dfs.blkno, dfs.dirbuf[..])
    modifies dfs.dirbuf, fs`blocks, fs`blks, fs`sb
    ensures !ArchiveKept(fs) && |fs.blocks| >= |fs.tar|
  {
    hide R.Encodes, R.Added, R.FindRoom, Bufs, Flat, R.Offset;
    ghost var flat := Flat(dir.exts);
    ghost var bufs := Bufs(fs.blocks, flat);
    ghost var k := dfs.off / TAR_BLOCKSIZE;
    EditInPlace(bufs, dir.recs, dfs.off, dfs.dirbuf, name, ino, ftype);
    R.AddedChanges(bufs, dir.recs, name, ino, ftype);
    BlockDiffers(fs.blocks, flat, k, dfs.dirbuf[..]);
    WrittenOne(fs.blocks, dfs.blkno, DirBlk(dfs.dirbuf[..]));
    assert fs.tar[flat[k]] == fs.blocks[..fs.orgblks][flat[k]];
    fs.WriteBlock([DirBlk(dfs.dirbuf[..])], dfs.blkno);
  }

  /** An image that changes the buffers is not the block's. */
  lemma BlockDiffers(blocks: seq<Block>, flat: seq<nat>, k: nat, buf: seq<byte>)
    requires k < |flat| && flat[k] < |blocks|
    ensures Bufs(blocks, flat)[k] == BytesOf(blocks[flat[k]])
    ensures buf == BytesOf(blocks[flat[k]]) ==> Bufs(blocks, flat)[k := buf] == Bufs(blocks, flat)
  {
  }

  /** No record has room: a new block behind the archive is mapped. */
  method AddBehind(dir: Inode, fs: FsIO, dirmgr: SpaceManager, iexmgr: SpaceManager, name: Name, dfs: DirFreeSpace,
                   ino: nat, ftype: byte)
    requires fs.Ok() && dirmgr.Ok(fs) && dirmgr.id == DIRMGR && iexmgr.Ok(fs) && iexmgr.id == IEXMGR
    requires |fs.blocks| + 2 * BULKS <= TARBLK_NONE
    requires dir.chain == [] && ExtRep([], dir.dinode, dir.exts, []) && dfs.dirbuf.Length == TAR_BLOCKSIZE
    requires |name| <= MAXNAMLEN && ino <= TARBLK_NONE
    modifies dir, dfs`blkno, dfs.dirbuf, fs, dirmgr, iexmgr
    ensures ArchiveKept(fs) && |fs.blocks| >= |fs.tar|
  {
    hide SpaceOk, ExtRep, ChainOwned, Frame, Issued, IssuedAllBelow;
    RepNoChain([], fs.blocks, dir.dinode, dir.exts);
    Disown(fs.V(), dir.ino);
    fs.owner := Disowned(fs.owner, dir.ino);
    ghost var v := fs.V();
    dfs.blkno := dirmgr.AllocBlock(fs, DirData(dir.ino, 0));
    SpaceShape(v);
    SpaceShape(fs.V());
    IssuedBehind(v, fs.V(), DIRMGR, dfs.blkno, DirData(dir.ino, 0));
    RepFrame(v, fs.V(), {KDir(dir.ino)}, dir.ino, dir.dinode, dir.exts, dir.chain);
    dir.InsBlock(fs, iexmgr, Ext(dir.dinode.blocks, dfs.blkno, 1));
    FillBlock(dfs.dirbuf, ino, ftype, name);
    dir.dinode := dir.dinode.(blocks := dir.dinode.blocks + 1);
    dir.dinode := dir.dinode.(size := dir.dinode.size + TAR_BLOCKSIZE);
    WriteBehind(fs, dfs.blkno, dfs.dirbuf);
  }

  lemma IssuedBehind(v: Vol, v': Vol, m: nat, b: nat, o: Owner)
    requires |v.owner| == |v.blocks| && |v'.owner| == |v'.blocks| && Issued(v, v', m, b, o)
    ensures v.org <= b < |v'.blocks|
  {
  }

  method WriteBehind(fs: FsIO, blkno: nat, buf: array<byte>)
    requires fs.Ok() && fs.orgblks <= blkno
    modifies fs`blocks, fs`blks, fs`sb
    ensures ArchiveKept(fs) && |fs.blocks| >= |fs.tar|
  {
    hide SpaceOk;
    assert forall b :: 0 <= b < fs.orgblks ==> fs.tar[b] == fs.blocks[..fs.orgblks][b];
    fs.WriteBlock([DirBlk(buf[..])], blkno);
  }

  /** The indirect blocks an inode lost are put down to another one. */
  ghost function Disowned(owner: seq<Owner>, ino: nat): seq<Owner> {
    seq(|owner|, b requires 0 <= b < |owner| =>
      if owner[b].Chain? && owner[b].ino == ino then Chain(ino + 1, owner[b].k) else owner[b])
  }

  lemma Disown(v: Vol, ino: nat)
    requires SpaceOk(v)
    ensures var v' := v.(owner := Disowned(v.owner, ino)); SpaceOk(v') && ChainOwned(v', ino, [])
  {
    var v' := v.(owner := Disowned(v.owner, ino));
    forall m | 0 <= m < 3
      ensures PoolOk(v', m)
    {
      assert PoolOk(v, m);
      DisownPool(v, ino, m);
    }
    hide PoolOk;
  }

  lemma DisownPool(v: Vol, ino: nat, m: nat)
    requires |v.owner| == |v.blocks| && m < |v.pools| && m < 3 && PoolOk(v, m)
    ensures PoolOk(v.(owner := Disowned(v.owner, ino)), m)
  {
    hide NextFree;
  }
}
