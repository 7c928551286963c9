/** Inode numbering and the inode table, inode 0 (cmd_c++/inode_factory.cc). */
module Factory {
  import opened Meta
  import opened Extents
  import opened ExtMap
  import R = Records
  import opened DirBlock
  import opened Volume
  import opened Space
  import opened Nodes
  import opened Inodes
  import opened Dirs
  import opened TarFile
  import opened Tree

  /** The node an in-memory inode stands for. */
  ghost function NodeOf(i: Inode, path: Path): Node
    reads i
  {
    Node(i.dinode, i.exts, i.chain, i.recs, i.intact, path)
  }

  /** What setFile leaves of node `n`. */
  function FileNode(n: Node, f: File): Node
    requires f.HasHeader() && |n.d.direct| == MAX_DINODE_DIRECT
  {
    if f.Fmt() == DIR then n.(d := FileDinode(n.d, f))
    else n.(d := FileDinode(n.d, f), exts := FileExts(f), chain := [], intact := false)
  }

  lemma FileRep(blocks: seq<Block>, d: Dinode, f: File)
    requires f.Valid() && f.Fmt() != DIR && |d.direct| == MAX_DINODE_DIRECT
    ensures ExtRep(blocks, FileDinode(d, f), FileExts(f), [])
  {
    assert FileDinode(d, f).direct[..|FileExts(f)|] == FileExts(f);
  }

  /** A directory in order starts with a block of its own. */
  lemma FirstOwned(v: Vol, i: nat, n: Node)
    requires SpaceOk(v) && n.d.fmt == DIR && InOrder(v, i, n)
    ensures n.exts != [] && n.exts[0].blkno >= v.org
  {
    var flat := Flat(n.exts);
    if n.exts == [] {
      assert R.Fits(n.recs, 0);
      R.OffsetMonotone(n.recs, 0, |n.recs|);
    } else {
      hide R.Encodes, ExtRep, ChainOwned;
      FirstBlock(n.exts);
      assert v.owner[flat[0]] == DirData(i, 0);
    }
  }

  lemma FirstBlock(exts: seq<Ext>)
    requires Tiled(exts) && exts != []
    ensures exts[0].nblks > 0 && Flat(exts) != [] && Flat(exts)[0] == exts[0].blkno
  {
    TiledPrefix(exts, 0);
    FlatPrefix(exts, 1);
    assert exts[..1] == [exts[0]] && exts[..1][..0] == [];
    assert Flat(exts[..1])[0] == exts[0].blkno;
  }

  /** Records in the archive, or no room for any: a directory that is not in order. */
  lemma ArchiveNoDir(v: Vol, i: nat, n: Node)
    requires SpaceOk(v) && n.d.fmt == DIR && InArchive(n.exts, v.org) && Tiled(n.exts)
    ensures !InOrder(v, i, n)
  {
    hide SpaceOk, DirOk, ChainOwned, ExtRep;
    if n.exts != [] {
      FirstBlock(n.exts);
      assert n.exts[0] in n.exts;
    }
    if InOrder(v, i, n) {
      FirstOwned(v, i, n);
    }
  }

  /** A directory is in order exactly while it is intact. */
  lemma OrderIsIntact(v: Vol, i: nat, n: Node)
    requires SpaceOk(v) && NodeOk(v, i, n) && i > 0
    ensures InOrder(v, i, n) <==> (n.d.fmt == DIR ==> n.intact)
  {
    hide SpaceOk, R.Encodes, ExtRep;
    if n.d.fmt == DIR && !n.intact {
      assert InArchive(n.exts, v.org);
      ArchiveNoDir(v, i, n);
    }
  }

  lemma IntactOwns(v: Vol, i: nat, n: Node)
    requires SpaceOk(v) && NodeOk(v, i, n) && i > 0 && n.d.fmt == DIR
    ensures n.intact <==> OwnRecords(n.d, v.org)
  {
    hide SpaceOk, DirOk, ChainOwned;
    DirectRead(v.blocks, n.d, n.exts, n.chain);
    hide ExtRep;
    if n.intact {
      FirstOwned(v, i, n);
    } else if n.exts != [] {
      FirstBlock(n.exts);
      assert n.exts[0] in n.exts;
    }
  }

  /** setFile leaves inode `i` with a map that can be followed, whatever it was and whatever it becomes. */
  lemma FileNodeOk(v: Vol, i: nat, n: Node, f: File)
    requires NodeOk(v, i, n) && i > 0 && f.Valid() && f.Within(v.org)
    requires |n.d.direct| == MAX_DINODE_DIRECT
    ensures NodeOk(v, i, FileNode(n, f))
  {
    hide FileDinode, R.Encodes, Strtoull8;
    var n' := FileNode(n, f);
    FileFmt(n.d, f);
    if f.Fmt() == DIR {
      RepAttrs(v.blocks, n.d, n'.d, n.exts, n.chain);
    } else {
      FileRep(v.blocks, n.d, f);
      FileExtsTiled(f);
      if !MadeDir(n) {
        NoChain(v.blocks, n.d, n.exts, n.chain);
      }
    }
  }

  /** The tree entry of the inode after setFile, from what it was before. */
  lemma FileEntry(n: Node, f: File, made: bool, data: Option<File>)
    requires f.Valid() && |n.d.direct| == MAX_DINODE_DIRECT && (MadeDir(n) <==> made)
    requires f.Fmt() != DIR ==> data == Some(f)
    requires f.Fmt() == DIR && data.Some? ==>
               && data.value.HasHeader() && n.exts == FileExts(data.value)
               && n.d.size == data.value.FileSize() && n.d.blocks == data.value.Blocks()
    requires f.Fmt() == DIR ==> (n.intact <==> data.None?)
    ensures EntryOk(FileNode(n, f), Given(f, made, data))
  {
    hide Strtoull8, CString, OctalValue;
  }

  lemma FileFmt(d: Dinode, f: File)
    requires f.Valid() && |d.direct| == MAX_DINODE_DIRECT
    ensures var d' := FileDinode(d, f);
            && d'.fmt == f.Fmt() && d'.nlink == d.nlink
            && (f.Fmt() == DIR ==> d'.nExtents == d.nExtents && d'.direct == d.direct && d'.rootIndExt == d.rootIndExt)
            && (f.Fmt() == DIR ==> d'.size == d.size && d'.blocks == d.blocks)
  {
  }

  lemma FileExtsTiled(f: File)
    requires f.Valid()
    ensures Tiled(FileExts(f))
  {
    if f.NumExtents() == 1 {
      assert [f.addr][..0] == [];
      assert Flat([]) == [];
    }
  }

  /** An inode that is there already. */
  lemma ReplacedEntry(n: Node, e: Entry, f: File)
    requires f.Valid() && |n.d.direct| == MAX_DINODE_DIRECT && EntryOk(n, e)
    ensures EntryOk(FileNode(n, f), ReplacedBy(e, f))
  {
    hide FileNode, FileExts;
    FileEntry(n, f, MadeAsDir(e), ReplacedBy(e, f).data);
  }

  /** An inode that was just made for the entry. */
  lemma NewFileEntry(n: Node, f: File)
    requires f.Valid() && NewAttrs(n.d, f.Fmt()) && (MadeDir(n) <==> f.Fmt() == DIR) && (n.intact <==> f.Fmt() == DIR)
    ensures |n.d.direct| == MAX_DINODE_DIRECT && n.d.nlink == (if f.Fmt() == DIR then 2 else 1)
    ensures EntryOk(FileNode(n, f), NewEntry(f))
  {
    hide EntryOk, FileNode;
    FileEntry(n, f, IsDirFile(f), NewEntry(f).data);
  }

  /** A fresh inode: its format, mode 0755, owned by root, no header block. */
  predicate NewAttrs(d: Dinode, fmt: Ftype) {
    && d.fmt == fmt && d.perm == DEFAULT_PERM && d.uid == 0 && d.gid == 0 && d.header == TARBLK_NONE
    && d.nlink == (if fmt == DIR then 2 else 1)
    && |d.direct| == MAX_DINODE_DIRECT
  }

  class InodeFactory {
    var freeInode: Inode
    var inodeNum: nat
    var totalDataSize: nat
    ghost var nodes: seq<Node>

    /** inode 0 is in memory and agrees with the node list. */
    ghost predicate Holds0()
      reads this, freeInode
    {
      && |nodes| > 0 && freeInode.ino == FREE_INO
      && NodeOf(freeInode, []) == nodes[0]
    }

    /** The next inode number is the number of inodes. */
    ghost predicate Numbered()
      reads this, freeInode
    {
      Holds0() && inodeNum == |nodes|
    }

    ghost predicate Ok(fs: FsIO, open: set<nat>)
      reads this, freeInode, fs
    {
      && Numbered() && freeInode.blkno == fs.orgblks && freeInode.isMod
      && VolOk(fs.V(), nodes) && Synced(fs.V(), nodes, open) && FREE_INO in open
    }

    lemma FreeMapOk(fs: FsIO, fs_v: Vol, v1: Vol, ino: nat)
      requires Holds0() && VolOk(fs_v, nodes) && Frame(fs_v, v1, {KDino(ino)}) && fs.V() == v1
      ensures freeInode.MapOk(fs) && DirOwned(v1, FREE_INO, []) && IsTable(NodeOf(freeInode, []))
      ensures Tiled(freeInode.exts) && !freeInode.intact
    {
      assert NodeOk(fs_v, FREE_INO, nodes[0]);
      RepFrame(fs_v, v1, {KDino(ino)}, FREE_INO, freeInode.dinode, freeInode.exts, freeInode.chain);
      DirOwnedFrame(fs_v, v1, {KDino(ino)}, FREE_INO, []);
    }

    lemma BulkMapped(v: Vol, de: Ext)
      requires VolOk(v, nodes) && Head(v.pools[DINODEMGR]) == TARBLK_NONE
      requires de == Ext(|nodes|, NextIssue(v, DINODEMGR), BULKS)
      ensures Tiled(InsExt(nodes[0].exts, de))
      ensures Flat(InsExt(nodes[0].exts, de)) == TableAfter(v, Table(nodes))
    {
      BulkBoundary(v, nodes);
      IssuedBelow(v, DINODEMGR);
      TableBelow(v, Table(nodes), |nodes|, de.blkno);
      HeadIsNext(v, DINODEMGR);
      assert NodeOk(v, FREE_INO, nodes[0]);
      AppendedRun(nodes[0].exts, Table(nodes), de);
    }

    /** The first half of allocInode: a dinode block is issued and, if it starts a bulk, the bulk is mapped. */
    method AllocDinode(fs: FsIO, dinodemgr: SpaceManager, iexmgr: SpaceManager, ghost open: set<nat>)
      returns (blkno: nat)
      requires fs.Ok() && dinodemgr.Ok(fs) && dinodemgr.id == DINODEMGR && iexmgr.Ok(fs) && iexmgr.id == IEXMGR
      requires Ok(fs, open) && |fs.blocks| + 2 * BULKS <= TARBLK_NONE
      modifies this`nodes, freeInode, fs, dinodemgr, iexmgr
      ensures fs.Ok() && dinodemgr.Ok(fs) && iexmgr.Ok(fs) && Numbered()
      ensures freeInode.isMod
      ensures nodes == old(nodes)[0 := nodes[0]] && old(Table(nodes)) <= Table(nodes)
      ensures VolOkWith(fs.V(), nodes, |nodes| + 1) && Synced(fs.V(), nodes, open)
      ensures |Table(nodes)| > |nodes| && Table(nodes)[|nodes|] == blkno
      ensures fs.pools[DIRMGR] == old(fs.pools)[DIRMGR]
      ensures |fs.blocks| <= |old(fs.blocks)| + 2 * BULKS
    {
      hide SpaceOk, Frame, AllNodesOk, TableOk, TagsOk, Flat, Tiled, Synced, Issued, IssuedAllBelow, ExtRep, ChainOwned,
           DirOwned, Allocated, NextIssue, NodeOk, TableAfter, VolOkWith, Head;
      ghost var v := fs.V();
      ghost var v1;
      VolShape(v, nodes);
      blkno, v1 := IssueDinode(fs, dinodemgr, iexmgr);
      ghost var n0 := NodeOf(freeInode, []);
      VolIssued(v, v1, fs.V(), nodes, n0);
      SyncedIssued(v, v1, fs.V(), nodes, n0, open);
      nodes := nodes[0 := n0];
    }

    /** The block is issued (volume v1), then the table is extended if the block starts a bulk. */
    method IssueDinode(fs: FsIO, dinodemgr: SpaceManager, iexmgr: SpaceManager) returns (blkno: nat, ghost v1: Vol)
      requires fs.Ok() && dinodemgr.Ok(fs) && dinodemgr.id == DINODEMGR && iexmgr.Ok(fs) && iexmgr.id == IEXMGR
      requires Numbered() && VolOk(fs.V(), nodes) && |fs.blocks| + 2 * BULKS <= TARBLK_NONE
      modifies freeInode, fs, dinodemgr, iexmgr
      ensures fs.Ok() && dinodemgr.Ok(fs) && iexmgr.Ok(fs)
      ensures v1 == Allocated(old(fs.V()), DINODEMGR, Dino(|nodes|)) && SpaceOk(v1)
      ensures blkno == NextIssue(old(fs.V()), DINODEMGR)
      ensures NodeOk(fs.V(), FREE_INO, NodeOf(freeInode, [])) && IsTable(NodeOf(freeInode, []))
      ensures old(freeInode.isMod) ==> freeInode.isMod
      ensures Flat(freeInode.exts) == TableAfter(old(fs.V()), Table(nodes))
      ensures Frame(v1, fs.V(), {KChain(FREE_INO)}) && fs.pools[DINODEMGR] == v1.pools[DINODEMGR]
      ensures fs.pools[DIRMGR] == old(fs.pools)[DIRMGR]
      ensures |fs.blocks| <= |old(fs.blocks)| + 2 * BULKS
    {
      hide SpaceOk, Frame, AllNodesOk, TableOk, TagsOk, Flat, Tiled, Synced, Issued, IssuedAllBelow, ExtRep, ChainOwned,
           DirOwned, Allocated, NextIssue, NodeOk, TableAfter, VolOkWith, Head;
      ghost var v := fs.V();
      VolShape(v, nodes);
      var oldblkno := dinodemgr.blkno;
      blkno := dinodemgr.AllocBlock(fs, Dino(inodeNum));
      v1 := fs.V();
      MapBulk(fs, iexmgr, oldblkno, blkno, dinodemgr.bulks, v);
    }

    /** A new bulk of dinode blocks is mapped by inode 0 from the next inode number on. */
    method MapBulk(fs: FsIO, iexmgr: SpaceManager, oldblkno: nat, blkno: nat, bulks: nat, ghost v: Vol)
      requires fs.Ok() && iexmgr.Ok(fs) && iexmgr.id == IEXMGR && |fs.blocks| + BULKS <= TARBLK_NONE
      requires Numbered() && VolOk(v, nodes) && Frame(v, fs.V(), {KDino(|nodes|)})
      requires oldblkno == Head(v.pools[DINODEMGR]) && blkno == NextIssue(v, DINODEMGR) && bulks == BULKS
      modifies freeInode, fs, iexmgr
      ensures fs.Ok() && iexmgr.Ok(fs)
      ensures NodeOk(fs.V(), FREE_INO, NodeOf(freeInode, [])) && IsTable(NodeOf(freeInode, []))
      ensures old(freeInode.isMod) ==> freeInode.isMod
      ensures Flat(freeInode.exts) == TableAfter(v, Table(nodes))
      ensures Frame(old(fs.V()), fs.V(), {KChain(FREE_INO)})
      ensures fs.pools[DIRMGR] == old(fs.pools)[DIRMGR] && fs.pools[DINODEMGR] == old(fs.pools)[DINODEMGR]
      ensures |fs.blocks| <= |old(fs.blocks)| + BULKS
    {
      hide SpaceOk, Frame, AllNodesOk, TableOk, TagsOk, Flat, Tiled, Synced, Issued, IssuedAllBelow, ExtRep, ChainOwned,
           DirOwned, Allocated;
      ghost var v1 := fs.V();
      FreeMapOk(fs, v, v1, |nodes|);
      HeadIsNext(v, DINODEMGR);
      if oldblkno == TARBLK_NONE {
        var de := Ext(inodeNum, blkno, bulks);
        BulkMapped(v, de);
        freeInode.InsBlock(fs, iexmgr, de);
        DirOwnedFrame(v1, fs.V(), {KChain(FREE_INO)}, FREE_INO, []);
      } else {
        SpaceShape(v1);
        FrameRefl(v1, {KChain(FREE_INO)});
      }
    }

    /** `i` is the inode in memory of the node with its number. */
    ghost predicate Stands(i: Inode)
      reads this, i
    {
      && 0 < i.ino < |nodes| && i.ino < |Table(nodes)| && i.blkno == Table(nodes)[i.ino]
      && nodes[i.ino] == NodeOf(i, nodes[i.ino].path)
    }

    /** InodeFactory::load: inode 0 is read from its block. */
    constructor Load(io: FsIO, freeInodeBlkno: nat, dirty: bool, ghost nodes: seq<Node>)
      requires |nodes| > 0 && freeInodeBlkno < |io.blocks| && io.blocks[freeInodeBlkno] == DinodeBlk(nodes[0].d)
      requires nodes[0].path == []
      ensures Holds0() && this.nodes == nodes
    {
      ghost var n := nodes[0];
      var inode := new Inode.Load(FREE_INO, FREE_INO, freeInodeBlkno, io, dirty, n.exts, n.chain, n.recs, n.intact);
      freeInode := inode;
      inodeNum := 0;
      totalDataSize := 0;
      this.nodes := nodes;
    }

    /** InodeFactory::getInode: inode 0 says where the dinode is. */
    method GetInode(io: FsIO, ino: nat, pino: nat, dirty: bool) returns (inode: Inode)
      requires Holds0() && 0 < ino < |nodes|
      requires MapReadable(io.blocks, nodes[0]) && OnDisk(io.blocks, nodes, ino)
      ensures fresh(inode) && Stands(inode) && inode.ino == ino && inode.pino == pino
    {
      TiledMaps(freeInode.exts);
      var blkno := freeInode.GetBlock(io, ino);
      assert blkno == Some(Table(nodes)[ino]);
      ghost var n := nodes[ino];
      inode := new Inode.Load(ino, pino, blkno.value, io, dirty, n.exts, n.chain, n.recs, n.intact);
    }

    /** A directory gets its first block; other inodes start empty. */
    method BuildInode(fs: FsIO, dirmgr: SpaceManager, iexmgr: SpaceManager, ino: nat, pino: nat, blkno: nat,
                      fmt: Ftype, now: nat, dirty: bool) returns (inode: Inode)
      requires fs.Ok() && dirmgr.Ok(fs) && dirmgr.id == DIRMGR && iexmgr.Ok(fs) && iexmgr.id == IEXMGR
      requires |fs.blocks| + 2 * BULKS <= TARBLK_NONE && ino <= TARBLK_NONE && pino <= TARBLK_NONE && fmt != NOFMT
      requires ChainOwned(fs.V(), ino, []) && DirOwned(fs.V(), ino, []) && ino > 0
      modifies fs, dirmgr, iexmgr
      ensures fs.Ok() && dirmgr.Ok(fs) && iexmgr.Ok(fs)
      ensures fresh(inode) && inode.ino == ino && inode.pino == pino && inode.blkno == blkno
      ensures forall path :: NodeOk(fs.V(), ino, NodeOf(inode, path))
      ensures NewAttrs(inode.dinode, fmt)
      ensures inode.recs == (if fmt == DIR then DotRecs(ino, pino) else []) && (inode.intact <==> fmt == DIR)
      ensures fmt != DIR ==> inode.exts == []
      ensures Frame(old(fs.V()), fs.V(), {KDir(ino), KChain(ino)})
      ensures fs.pools[DINODEMGR] == old(fs.pools)[DINODEMGR]
      ensures |fs.blocks| <= |old(fs.blocks)| + 2 * BULKS
    {
      hide SpaceOk, Frame, ChainOwned, DirOwned, Tiled, ExtRep, DirOk;
      SpaceShape(fs.V());
      inode := new Inode(ino, pino, blkno, fmt, DEFAULT_PERM, now, dirty);
      RepEmpty(fs.blocks, inode.dinode);
      if fmt == DIR {
        DirInit(inode, fs, dirmgr, iexmgr);
        RepShape(fs.blocks, inode.dinode, inode.exts, inode.chain);
      } else {
        DirEmpty(fs, inode);
        FrameRefl(fs.V(), {KDir(ino), KChain(ino)});
      }
    }

    /** The second half of allocInode: the inode itself, numbered inodeNum. */
    method NumberInode(fs: FsIO, dirmgr: SpaceManager, iexmgr: SpaceManager, pino: nat, blkno: nat, fmt: Ftype,
                       now: nat, dirty: bool, ghost path: Path, ghost open: set<nat>) returns (inode: Inode)
      requires fs.Ok() && dirmgr.Ok(fs) && dirmgr.id == DIRMGR && iexmgr.Ok(fs) && iexmgr.id == IEXMGR
      requires |fs.blocks| + 2 * BULKS <= TARBLK_NONE && pino <= TARBLK_NONE && fmt != NOFMT
      requires Numbered() && freeInode.blkno == fs.orgblks && freeInode.isMod && FREE_INO in open
      requires VolOkWith(fs.V(), nodes, |nodes| + 1) && Synced(fs.V(), nodes, open)
      requires |Table(nodes)| > |nodes| && Table(nodes)[|nodes|] == blkno
      modifies this`inodeNum, this`nodes, fs, dirmgr, iexmgr
      ensures fs.Ok() && dirmgr.Ok(fs) && iexmgr.Ok(fs)
      ensures Ok(fs, open + {|old(nodes)|})
      ensures fresh(inode) && nodes == old(nodes) + [NodeOf(inode, path)] && Stands(inode)
      ensures Table(nodes) == old(Table(nodes))
      ensures inode.ino == |old(nodes)| < TARBLK_NONE && inode.pino == pino && inode.isMod
      ensures NewAttrs(inode.dinode, fmt)
      ensures inode.recs == (if fmt == DIR then DotRecs(inode.ino, pino) else []) && (inode.intact <==> fmt == DIR)
      ensures fmt != DIR ==> inode.exts == []
      ensures fs.pools[DINODEMGR] == old(fs.pools)[DINODEMGR]
      ensures |fs.blocks| <= |old(fs.blocks)| + 2 * BULKS
    {
      hide SpaceOk, Frame, AllNodesOk, TableOk, TagsOk, Flat, Tiled, Synced, ExtRep, ChainOwned, DirOwned, DirOk,
           VolOkWith, NodeOk, NewAttrs;
      ghost var v := fs.V();
      NewInoFree(v, nodes);
      inode := BuildInode(fs, dirmgr, iexmgr, inodeNum, pino, blkno, fmt, now, dirty);
      VolNew(v, fs.V(), nodes, NodeOf(inode, path));
      SyncedNew(v, fs.V(), nodes, NodeOf(inode, path), open);
      inode.isMod := true;
      inodeNum := inodeNum + 1;
      nodes := nodes + [NodeOf(inode, path)];
    }

    lemma NewInoFree(v: Vol, nodes: seq<Node>)
      requires VolOkWith(v, nodes, |nodes| + 1)
      ensures ChainOwned(v, |nodes|, []) && DirOwned(v, |nodes|, []) && |nodes| < TARBLK_NONE
    {
      InodesBelow(v, nodes, |nodes| + 1);
      NoTags(v, |nodes|, |nodes|);
    }

    /** InodeFactory::allocInode(fs, pino, ftype) */
    method AllocInode(fs: FsIO, dirmgr: SpaceManager, iexmgr: SpaceManager, dinodemgr: SpaceManager, pino: nat,
                      fmt: Ftype, now: nat, dirty: bool, ghost path: Path, ghost open: set<nat>) returns (inode: Inode)
      requires fs.Ok() && dirmgr.Ok(fs) && dirmgr.id == DIRMGR && iexmgr.Ok(fs) && iexmgr.id == IEXMGR
      requires dinodemgr.Ok(fs) && dinodemgr.id == DINODEMGR
      requires |fs.blocks| + 4 * BULKS <= TARBLK_NONE && pino <= TARBLK_NONE && fmt != NOFMT
      requires Ok(fs, open)
      modifies this`inodeNum, this`nodes, freeInode, fs, dirmgr, iexmgr, dinodemgr
      ensures fs.Ok() && dirmgr.Ok(fs) && iexmgr.Ok(fs) && dinodemgr.Ok(fs)
      ensures Ok(fs, open + {|old(nodes)|})
      ensures fresh(inode) && nodes == old(nodes)[0 := nodes[0]] + [NodeOf(inode, path)] && Stands(inode)
      ensures old(Table(nodes)) <= Table(nodes)
      ensures inode.ino == |old(nodes)| < TARBLK_NONE && inode.pino == pino && inode.isMod
      ensures NewAttrs(inode.dinode, fmt)
      ensures inode.recs == (if fmt == DIR then DotRecs(inode.ino, pino) else []) && (inode.intact <==> fmt == DIR)
      ensures fmt != DIR ==> inode.exts == []
      ensures |fs.blocks| <= |old(fs.blocks)| + 4 * BULKS
    {
      hide SpaceOk, AllNodesOk, TableOk, TagsOk, Flat, Tiled, Synced, VolOk, VolOkWith, NewAttrs, DotRecs;
      var blkno := AllocDinode(fs, dinodemgr, iexmgr, open);
      inode := NumberInode(fs, dirmgr, iexmgr, pino, blkno, fmt, now, dirty, path, open);
    }

    lemma SetFileKeeps(fs: FsIO, open: set<nat>, ino: nat, n: Node)
      requires Ok(fs, open) && 0 < ino < |nodes| && NodeOk(fs.V(), ino, n)
      ensures VolOk(fs.V(), nodes[ino := n]) && Synced(fs.V(), nodes[ino := n], open + {ino})
    {
      hide NodeOk, SpaceOk, TableOk, TagsOk, Flat;
      NodesReplaced(fs.V(), nodes, ino, n);
      assert Table(nodes[ino := n]) == Table(nodes);
    }

    /** setFile on an inode of the file system, of whatever kind. */
    method SetFile(fs: FsIO, inode: Inode, f: File, ghost open: set<nat>)
      requires Ok(fs, open) && Stands(inode) && inode != freeInode
      requires f.Valid() && f.Within(fs.orgblks)
      modifies this`nodes, inode
      ensures |old(nodes)[inode.ino].d.direct| == MAX_DINODE_DIRECT && inode.isMod
      ensures nodes == old(nodes)[inode.ino := FileNode(old(nodes)[inode.ino], f)]
      ensures SameNaming(old(nodes)[inode.ino], nodes[inode.ino])
      ensures Stands(inode) && Ok(fs, open + {inode.ino})
    {
      hide NodeOk, SpaceOk, TableOk, TagsOk, Flat, Synced, VolOkWith, FileDinode;
      ghost var i := inode.ino;
      ghost var n := nodes[i];
      NodeAt(fs.V(), nodes, i);
      RepShapeNode(fs.V(), i, n);
      FileNodeOk(fs.V(), i, n, f);
      FileFmt(n.d, f);
      inode.SetFile(f);
      ghost var n' := NodeOf(inode, n.path);
      assert n' == FileNode(n, f);
      SetFileKeeps(fs, open, i, n');
      nodes := nodes[i := n'];
    }

    lemma RepShapeNode(v: Vol, i: nat, n: Node)
      requires NodeOk(v, i, n)
      ensures |n.d.direct| == MAX_DINODE_DIRECT
    {
    }

    /** Writing an inode back; what was not modified is on disk already. */
    method SyncInode(fs: FsIO, inode: Inode, ghost open: set<nat>)
      requires fs.Ok() && Ok(fs, open) && Stands(inode) && (inode.isMod || inode.ino !in open)
      modifies fs`blocks, fs`blks, fs`sb
      ensures fs.Ok() && Ok(fs, open - {inode.ino})
      ensures |fs.blocks| == |old(fs.blocks)| && fs.sb == old(fs.sb)
    {
      hide NodeOk, SpaceOk, TableOk, TagsOk, Flat, Synced, VolOkWith, Frame;
      ghost var v := fs.V();
      VolReadable(v, nodes, inode.ino);
      SpaceShape(v);
      inode.Sync(fs);
      AfterSync(v, fs.V(), nodes, inode.ino, open, inode.isMod);
    }

    lemma AfterSync(v: Vol, v': Vol, nodes: seq<Node>, i: nat, open: set<nat>, isMod: bool)
      requires VolOk(v, nodes) && Synced(v, nodes, open) && i < |nodes| && (isMod || i !in open)
      requires SpaceOk(v') && Frame(v, v', {KDino(i)}) && v'.owner == v.owner && v'.pools == v.pools && v'.org == v.org
      requires i < |Table(nodes)| && Table(nodes)[i] < |v.blocks|
      requires v'.blocks == if isMod then v.blocks[Table(nodes)[i] := DinodeBlk(nodes[i].d)] else v.blocks
      ensures VolOk(v', nodes) && Synced(v', nodes, open - {i})
    {
      hide VolOk, SpaceOk, Frame, Flat, Synced;
      VolWriteDinode(v, v', nodes, i);
      if isMod {
        assert v' == v.(blocks := v'.blocks);
        SyncedWrite(v, v', nodes, i, open);
      } else {
        assert v' == v && open - {i} == open;
      }
    }

    /** InodeFactory::fin: inode 0 is written last. */
    method Fin(fs: FsIO, ghost open: set<nat>)
      requires fs.Ok() && Ok(fs, open)
      modifies fs`blocks, fs`blks, fs`sb
      ensures fs.Ok() && VolOk(fs.V(), nodes) && Synced(fs.V(), nodes, open - {FREE_INO})
      ensures |fs.blocks| == |old(fs.blocks)| && fs.sb == old(fs.sb)
    {
      hide NodeOk, SpaceOk, TableOk, TagsOk, Flat, Synced, VolOkWith, Frame;
      ghost var v := fs.V();
      VolReadable(v, nodes, FREE_INO);
      BulkBoundary(v, nodes);
      SpaceShape(v);
      freeInode.Sync(fs);
      AfterSync(v, fs.V(), nodes, FREE_INO, open, freeInode.isMod);
    }

    /** InodeFactory::allocInode(fs, pino, file) */
    method AllocFileInode(fs: FsIO, dirmgr: SpaceManager, iexmgr: SpaceManager, dinodemgr: SpaceManager, pino: nat,
                          f: File, now: nat, dirty: bool, ghost path: Path, ghost open: set<nat>) returns (inode: Inode)
      requires fs.Ok() && dirmgr.Ok(fs) && dirmgr.id == DIRMGR && iexmgr.Ok(fs) && iexmgr.id == IEXMGR
      requires dinodemgr.Ok(fs) && dinodemgr.id == DINODEMGR
      requires |fs.blocks| + 4 * BULKS <= TARBLK_NONE && pino <= TARBLK_NONE
      requires f.Valid() && f.Within(fs.orgblks)
      requires Ok(fs, open)
      modifies this`inodeNum, this`nodes, this`totalDataSize, freeInode, fs, dirmgr, iexmgr, dinodemgr
      ensures fs.Ok() && dirmgr.Ok(fs) && iexmgr.Ok(fs) && dinodemgr.Ok(fs)
      ensures Ok(fs, open + {|old(nodes)|})
      ensures fresh(inode) && nodes == old(nodes)[0 := nodes[0]] + [NodeOf(inode, path)] && Stands(inode)
      ensures old(Table(nodes)) <= Table(nodes)
      ensures inode.ino == |old(nodes)| < TARBLK_NONE && inode.pino == pino && inode.isMod
      ensures EntryOk(NodeOf(inode, path), NewEntry(f))
      ensures inode.dinode.nlink == if f.Fmt() == DIR then 2 else 1
      ensures inode.recs == if f.Fmt() == DIR then DotRecs(inode.ino, pino) else []
      ensures totalDataSize == old(totalDataSize) + if f.Fmt() == REG then f.Blocks() else 0
      ensures |fs.blocks| <= |old(fs.blocks)| + 4 * BULKS
    {
      hide SpaceOk, Synced, VolOk, DotRecs, EntryOk, Flat, FileNode, NewEntry, NewAttrs, FsIO.Ok,
           SpaceManager.Ok, File.FileSize;
      inode := AllocInode(fs, dirmgr, iexmgr, dinodemgr, pino, f.Fmt(), now, dirty, path, open);
      ghost var n := |nodes| - 1;
      NewFileEntry(NodeOf(inode, path), f);
      SetFile(fs, inode, f, open + {n});
      assert open + {n} + {n} == open + {n};
      if f.Fmt() == REG {
        totalDataSize := totalDataSize + f.Blocks();
      }
    }

    lemma InoBelow(fs: FsIO, open: set<nat>, i: Inode)
      requires Ok(fs, open) && Stands(i)
      ensures i.ino < TARBLK_NONE && (i.intact ==> i.recs != [])
    {
      InodesBelow(fs.V(), nodes, |nodes|);
      NodeAt(fs.V(), nodes, i.ino);
    }

    lemma IntactTest(fs: FsIO, open: set<nat>, dir: Inode)
      requires Ok(fs, open) && Stands(dir) && dir.IsDir()
      ensures dir.intact <==> OwnRecords(dir.dinode, fs.orgblks)
    {
      hide SpaceOk, NodeOk;
      NodeAt(fs.V(), nodes, dir.ino);
      IntactOwns(fs.V(), dir.ino, nodes[dir.ino]);
    }

    /** A directory that was something else maps archive blocks through its dinode alone. */
    lemma AstrayMap(open: set<nat>, fs: FsIO, dir: Inode)
      requires Ok(fs, open) && Stands(dir) && dir.IsDir() && !dir.intact
      ensures MapsArchive(dir, fs.orgblks)
    {
      NodeAt(fs.V(), nodes, dir.ino);
      NoChain(fs.blocks, dir.dinode, dir.exts, dir.chain);
      RepNoChain(fs.blocks, [], dir.dinode, dir.exts);
    }

    lemma DirNodeInv(fs: FsIO, open: set<nat>, dir: Inode)
      requires Ok(fs, open) && Stands(dir) && dir.intact
      ensures DirInv(fs, dir) && dir.recs != []
      ensures dir.dinode.size <= TAR_BLOCKSIZE * |fs.blocks|
    {
      NodeAt(fs.V(), nodes, dir.ino);
      var flat := Flat(dir.exts);
      if |flat| > 0 {
        IncreasingAtLeast(flat, |flat| - 1);
        assert fs.owner[flat[|flat| - 1]] == DirData(dir.ino, |flat| - 1);
      }
    }

    /** searchFreeSpace and addDirEntry in a row, as mkdir and create do. */
    method AddName(fs: FsIO, dirmgr: SpaceManager, iexmgr: SpaceManager, dir: Inode, name: Name, inode: Inode)
      requires fs.Ok() && dirmgr.Ok(fs) && dirmgr.id == DIRMGR && iexmgr.Ok(fs) && iexmgr.id == IEXMGR
      requires |fs.blocks| + 2 * BULKS <= TARBLK_NONE && dir.dinode.size < TARBLK_NONE
      requires DirInv(fs, dir) && inode != dir && |name| <= MAXNAMLEN && inode.ino <= TARBLK_NONE
      modifies dir, fs, dirmgr, iexmgr
      ensures fs.Ok() && dirmgr.Ok(fs) && iexmgr.Ok(fs) && DirInv(fs, dir) && dir.isMod
      ensures dir.recs == R.Added(old(dir.recs), name, inode.ino, FtypeCode(inode.dinode.fmt))
      ensures Frame(old(fs.V()), fs.V(), {KDir(dir.ino), KChain(dir.ino)})
      ensures fs.pools[DINODEMGR] == old(fs.pools)[DINODEMGR]
      ensures |fs.blocks| <= |old(fs.blocks)| + 2 * BULKS
      ensures SameAttrs(dir.dinode.(nlink := old(dir.dinode).nlink), old(dir.dinode))
      ensures dir.dinode.nlink == old(dir.dinode).nlink + if inode.IsDir() then 1 else 0
    {
      DirReadable(fs, dir);
      hide SpaceOk, Frame, DirInv, FreeSpaceAt, R.Added;
      var dfs := new DirFreeSpace();
      SearchFreeSpace(dir, fs, name, dfs);
      AddDirEntry(dir, fs, dirmgr, iexmgr, name, dfs, inode);
    }

    /** `inode` is entered in `dir` as `name`. */
    method LinkName(fs: FsIO, dirmgr: SpaceManager, iexmgr: SpaceManager, dir: Inode, name: Name, inode: Inode,
                    ghost open: set<nat>)
      requires fs.Ok() && dirmgr.Ok(fs) && dirmgr.id == DIRMGR && iexmgr.Ok(fs) && iexmgr.id == IEXMGR
      requires TAR_BLOCKSIZE * (|fs.blocks| + 2 * BULKS) <= TARBLK_NONE
      requires Ok(fs, open) && Stands(dir) && dir.intact && dir != freeInode
      requires inode != dir && |name| <= MAXNAMLEN && inode.ino <= TARBLK_NONE
      modifies this`nodes, dir, fs, dirmgr, iexmgr
      ensures fs.Ok() && dirmgr.Ok(fs) && iexmgr.Ok(fs)
      ensures Ok(fs, open + {dir.ino}) && Stands(dir) && dir.isMod
      ensures nodes == old(nodes)[dir.ino := nodes[dir.ino]]
      ensures Linked(old(nodes)[dir.ino], nodes[dir.ino], name, inode.ino, FtypeCode(inode.dinode.fmt), inode.IsDir())
      ensures fs.pools[DINODEMGR] == old(fs.pools)[DINODEMGR]
      ensures |fs.blocks| <= |old(fs.blocks)| + 2 * BULKS
    {
      hide SpaceOk, Frame, AllNodesOk, TableOk, TagsOk, Flat, Tiled, Synced, VolOkWith, ExtRep, ChainOwned, DirOk,
           R.Added;
      ghost var v := fs.V();
      ghost var d := dir.ino;
      ghost var n := nodes[d];
      DirNodeInv(fs, open, dir);
      AddName(fs, dirmgr, iexmgr, dir, name, inode);
      ghost var n' := NodeOf(dir, n.path);
      VolUpdate(v, fs.V(), nodes, d, n');
      SyncedMore(v, nodes, open, d);
      SyncedUpdate(v, fs.V(), nodes, d, n', open + {d});
      nodes := nodes[d := n'];
    }

    /** Dir::lookup: null exactly when the directory has no such name, else the inode read from disk. */
    method Lookup(io: FsIO, dir: Inode, name: Name, dirty: bool) returns (inode: Inode?)
      requires Holds0() && Readable(io, dir) && MapReadable(io.blocks, nodes[0])
      requires var r := R.Lookup(dir.recs, name); r.Some? ==> 0 < r.value < |nodes| && OnDisk(io.blocks, nodes, r.value)
      ensures inode == null <==> R.Lookup(dir.recs, name) == None
      ensures inode != null ==>
                && fresh(inode) && Stands(inode) && inode.pino == dir.ino
                && R.Lookup(dir.recs, name) == Some(inode.ino)
    {
      hide Readable, MapReadable, OnDisk, R.Lookup;
      inode := null;
      var r := FindEntry(dir, io, name);
      if r.Some? {
        inode := GetInode(io, r.value, dir.ino, dirty);
      }
    }

    /** InodeFactory::init: inode 0 in the first block of the first bulk, mapping that bulk. */
    constructor (fs: FsIO, dinodemgr: SpaceManager, iexmgr: SpaceManager, now: nat, dirty: bool)
      requires fs.Ok() && |fs.blocks| + 2 * BULKS <= TARBLK_NONE
      requires |fs.blocks| == fs.orgblks && fs.pools[DINODEMGR] == Pool(0, 0)
      requires dinodemgr.Ok(fs) && dinodemgr.id == DINODEMGR && iexmgr.Ok(fs) && iexmgr.id == IEXMGR
      modifies fs, dinodemgr, iexmgr
      ensures fs.Ok() && dinodemgr.Ok(fs) && iexmgr.Ok(fs)
      ensures Ok(fs, {FREE_INO}) && inodeNum == 1 && totalDataSize == 0 && fresh(freeInode)
      ensures fs.pools[DIRMGR] == old(fs.pools)[DIRMGR]
      ensures |fs.blocks| <= |old(fs.blocks)| + 2 * BULKS
    {
      hide SpaceOk, VolOk, Synced;
      var inode := FirstInode(fs, dinodemgr, iexmgr, now, dirty);
      freeInode := inode;
      inodeNum := 1;
      totalDataSize := 0;
      nodes := [NodeOf(inode, [])];
    }
  }

  method FirstInode(fs: FsIO, dinodemgr: SpaceManager, iexmgr: SpaceManager, now: nat, dirty: bool)
    returns (inode: Inode)
    requires fs.Ok() && |fs.blocks| + 2 * BULKS <= TARBLK_NONE
    requires |fs.blocks| == fs.orgblks && fs.pools[DINODEMGR] == Pool(0, 0)
    requires dinodemgr.Ok(fs) && dinodemgr.id == DINODEMGR && iexmgr.Ok(fs) && iexmgr.id == IEXMGR
    modifies fs, dinodemgr, iexmgr
    ensures fs.Ok() && dinodemgr.Ok(fs) && iexmgr.Ok(fs)
    ensures fresh(inode) && inode.ino == FREE_INO && inode.blkno == fs.orgblks && inode.isMod
    ensures VolOk(fs.V(), [NodeOf(inode, [])]) && Synced(fs.V(), [NodeOf(inode, [])], {FREE_INO})
    ensures fs.pools[DIRMGR] == old(fs.pools)[DIRMGR]
    ensures |fs.blocks| <= |old(fs.blocks)| + 2 * BULKS
  {
    hide SpaceOk, Frame, VolOk, Synced, Flat, Allocated, NodeOk;
    ghost var v := fs.V();
    SpaceShape(v);
    var blkno := dinodemgr.AllocBlock(fs, Dino(FREE_INO));
    ghost var v1 := fs.V();
    FirstIssue(v);
    inode := MapFirst(fs, iexmgr, blkno, dinodemgr.bulks, now, dirty);
    VolFirst(v, v1, fs.V(), NodeOf(inode, []));
  }

  lemma FirstIssue(v: Vol)
    requires SpaceOk(v) && |v.blocks| == v.org && v.pools[DINODEMGR] == Pool(0, 0)
    ensures NextIssue(v, DINODEMGR) == v.org
    ensures TagsOk(Allocated(v, DINODEMGR, Dino(FREE_INO)), 1)
    ensures var v1 := Allocated(v, DINODEMGR, Dino(FREE_INO));
            ChainOwned(v1, FREE_INO, []) && DirOwned(v1, FREE_INO, [])
  {
    AllocatedIssues(v, DINODEMGR, Dino(FREE_INO));
  }

  /** inode 0 comes into being and maps the bulk it lives in. */
  method MapFirst(fs: FsIO, iexmgr: SpaceManager, blkno: nat, bulks: nat, now: nat, dirty: bool) returns (inode: Inode)
    requires fs.Ok() && |fs.blocks| + BULKS <= TARBLK_NONE && bulks == BULKS
    requires iexmgr.Ok(fs) && iexmgr.id == IEXMGR
    requires ChainOwned(fs.V(), FREE_INO, []) && DirOwned(fs.V(), FREE_INO, [])
    modifies fs, iexmgr
    ensures fs.Ok() && iexmgr.Ok(fs)
    ensures fresh(inode) && inode.ino == FREE_INO && inode.blkno == blkno && inode.isMod
    ensures NodeOk(fs.V(), FREE_INO, NodeOf(inode, [])) && IsTable(NodeOf(inode, []))
    ensures Flat(inode.exts) == Blocks(Ext(0, blkno, BULKS))
    ensures Frame(old(fs.V()), fs.V(), {KChain(FREE_INO)})
    ensures fs.pools[DIRMGR] == old(fs.pools)[DIRMGR] && fs.pools[DINODEMGR] == old(fs.pools)[DINODEMGR]
    ensures |fs.blocks| <= |old(fs.blocks)| + BULKS
  {
    hide SpaceOk, Frame, Flat, ChainOwned, DirOwned, Tiled, Blocks;
    ghost var v := fs.V();
    inode := new Inode(FREE_INO, FREE_INO, blkno, NOFMT, 0, now, dirty);
    RepEmpty(fs.blocks, inode.dinode);
    var de := Ext(0, blkno, bulks);
    FirstRun(de);
    inode.InsBlock(fs, iexmgr, de);
    DirOwnedFrame(v, fs.V(), {KChain(FREE_INO)}, FREE_INO, []);
  }

  lemma FirstRun(de: Ext)
    requires de.off == 0 && de.nblks > 0
    ensures Tiled(InsExt([], de)) && Flat(InsExt([], de)) == Blocks(de)
  {
    AppendedRun([], [], de);
    assert [] + Blocks(de) == Blocks(de);
  }
}
