/** Building the metadata of an archive (cmd_c++/fsmaker.cc, and mkdir/create of cmd_c++/dir.cc). */
module Maker {
  import opened Meta
  import Bytes
  import opened TarFile
  import opened Volume
  import opened Space
  import opened Nodes
  import opened Inodes
  import opened Dirs
  import opened Factory
  import opened Tree
  import opened DirBlock
  import R = Records

  /** Byte offsets of `k` more bulks fit in 64 bits. */
  predicate Room(blks: nat, k: nat) {
    TAR_BLOCKSIZE * (blks + k * BULKS) <= TARBLK_NONE
  }

  /** Two more inodes are ahead of their image on disk. */
  function Opened(open: set<nat>, a: nat, b: nat): set<nat> {
    open + {a} + {b}
  }

  method CurrentTime() returns (now: nat)
  {
    now := *;
  }

  /** An inode was issued, then entered in directory `d`: the tree has one more node. */
  lemma Entered(n0: seq<Node>, n1: seq<Node>, n2: seq<Node>, index: map<Path, nat>, t: Fs,
                d: nat, name: Name, new_: Node, ftype: byte, e: Entry)
    requires TreeOk(n0, index) && Represents(n0, index, t)
    requires Enters(n0, n1, n2, d, name, new_, ftype) && EntryOk(new_, e)
    requires name != R.DOT && name != R.DOTDOT && n0[d].path + [name] !in t
    ensures TreeOk(n2, index[n0[d].path + [name] := |n0|])
    ensures Represents(n2, index[n0[d].path + [name] := |n0|], t[n0[d].path + [name] := e])
  {
    hide R.Added, DotRecs, EntryOk, SameDirAttrs, TreeOk, Represents;
    forall i | 0 < i < |n0| && i != d
      ensures n2[i] == n0[i]
    {
    }
    assert n2[|n0|] == new_;
    assert NodeAdded(n0, n2, d, name, ftype);
    hide NodeAdded;
    KeysAgree(n0, index, t);
    TreeAdd(n0, n2, index, d, name, ftype);
    RepresentsAdd(n0, n2, index, t, d, name, ftype, e);
  }

  lemma RootIsDir(nodes: seq<Node>, index: map<Path, nat>)
    requires TreeOk(nodes, index)
    ensures ROOT_INO < |nodes| && nodes[ROOT_INO].intact
  {
  }

  lemma KeysAgree(nodes: seq<Node>, index: map<Path, nat>, t: Fs)
    requires TreeOk(nodes, index) && Represents(nodes, index, t)
    ensures PathsOk(nodes, index) && index.Keys == t.Keys
  {
  }

  /** A new image: the archive with no metadata yet. */
  method OpenImage(tar: seq<Block>)
    returns (io: FsIO, dirmgr: SpaceManager, iexmgr: SpaceManager, dinodemgr: SpaceManager)
    requires 0 < |tar| && Room(|tar|, 0)
    ensures fresh({io, dirmgr, iexmgr, dinodemgr})
    ensures io.Ok() && io.blocks == tar && io.orgblks == |tar| && io.pools[DINODEMGR] == Pool(0, 0)
    ensures dirmgr.Ok(io) && iexmgr.Ok(io) && dinodemgr.Ok(io)
    ensures dirmgr.id == DIRMGR && iexmgr.id == IEXMGR && dinodemgr.id == DINODEMGR
  {
    var sb := SBlock(0, 0, 0, TARBLK_NONE, TARBLK_NONE, TARBLK_NONE, |tar| + 1, |tar|, 0);
    io := new FsIO(tar, sb);
    dirmgr := new SpaceManager(BULKS, DIRMGR);
    iexmgr := new SpaceManager(BULKS, IEXMGR);
    dinodemgr := new SpaceManager(BULKS, DINODEMGR);
  }

  /** The tree with only the root directory. */
  lemma RootTree(n0: Node, root: Node)
    requires root.path == [] && NewAttrs(root.d, DIR) && root.recs == DotRecs(ROOT_INO, ROOT_INO) && root.intact
    ensures TreeOk([n0, root], map[[] := ROOT_INO])
    ensures Represents([n0, root], map[[] := ROOT_INO], EMPTYFS)
  {
    var nodes, index := [n0, root], map[[] := ROOT_INO];
    DotLive(ROOT_INO, ROOT_INO);
    forall name
      ensures R.Lookup(root.recs, name) == Child(index, [], ROOT_INO, name)
    {
      DotLookup(ROOT_INO, ROOT_INO, name);
    }
    assert Subdirs(nodes, []) == {};
    assert nodes[1] == root;
  }

  /** What the superblock on disk says about the volume in front of it. */
  predicate SuperOk(sb: SBlock, v: Vol, inodes: nat, dsize: nat) {
    && |v.pools| == 3
    && v.org + sb.size == |v.blocks| + 1
    && sb.free == v.org && sb.root == v.org + 1
    && sb.inodes == sb.maxino == inodes && sb.dsize == dsize
    && sb.flistDirdata == Head(v.pools[DIRMGR])
    && sb.flistIexdata == Head(v.pools[IEXMGR])
    && sb.flistDinode == Head(v.pools[DINODEMGR])
  }

  /** A finished image: a volume in good order that holds the tree, and its superblock as the last block. */
  ghost predicate IsImage(img: seq<Block>, tar: seq<Block>, v: Vol, nodes: seq<Node>, index: map<Path, nat>,
                          t: Fs, dsize: nat) {
    && v.org == |tar| && tar <= v.blocks
    && |img| == |v.blocks| + 1 && img[..|v.blocks|] == v.blocks
    && img[|v.blocks|].SuperBlk? && SuperOk(img[|v.blocks|].sb, v, |nodes|, dsize)
    && VolOk(v, nodes) && Synced(v, nodes, {})
    && TreeOk(nodes, index) && Represents(nodes, index, t) && |nodes| == |t| + 1
  }

  /**
    * Outcome of add: Stuck where the source rolls back, Astray where it reads archive bytes as directory records,
    * which is not followed.
    */
  datatype Added = Done | Stuck | Astray

  /** What add meets at the path of a component on the way. */
  function StepInto(t: Fs, path: Path): Added {
    if IntactIn(t, path) then Done else if IsDirEntry(t[path]) then Astray else Stuck
  }

  class FsMaker {
    const io: FsIO
    const dirmgr: SpaceManager
    const iexmgr: SpaceManager
    const dinodemgr: SpaceManager
    const fac: InodeFactory
    const root: Inode
    ghost var index: map<Path, nat>
    ghost var tree: Fs

    ghost predicate DeviceOk()
      reads this, io, dirmgr, iexmgr, dinodemgr
    {
      && io.Ok() && dirmgr.Ok(io) && iexmgr.Ok(io) && dinodemgr.Ok(io)
      && dirmgr.id == DIRMGR && iexmgr.id == IEXMGR && dinodemgr.id == DINODEMGR
    }

    ghost predicate NamesOk()
      reads this, fac
    {
      TreeOk(fac.nodes, index) && Represents(fac.nodes, index, tree) && |tree| + 1 == |fac.nodes|
    }

    /** Between steps: the image, the open inodes in memory and the tree agree. */
    ghost predicate Inv(open: set<nat>)
      reads this, io, dirmgr, iexmgr, dinodemgr, fac, fac.freeInode, root
    {
      && DeviceOk() && fac.Ok(io, open) && NamesOk()
      && fac.Stands(root) && root.ino == ROOT_INO && root.isMod && root != fac.freeInode
    }

    /** `dir` is an intact directory in memory; the root is only ever represented by `root`. */
    ghost predicate IsCwd(dir: Inode)
      reads this, fac, dir
    {
      && fac.Stands(dir) && dir.IsDir() && dir.intact && (dir == root || dir.ino > ROOT_INO) && dir != fac.freeInode
    }

    ghost function PathOf(i: Inode): Path
      reads this, fac
    {
      if i.ino < |fac.nodes| then fac.nodes[i.ino].path else []
    }

    /** The rest of FsMaker::create: inode 0 and the root directory. */
    constructor (io: FsIO, dirmgr: SpaceManager, iexmgr: SpaceManager, dinodemgr: SpaceManager,
                 fac: InodeFactory, root: Inode)
      ensures this.io == io && this.dirmgr == dirmgr && this.iexmgr == iexmgr && this.dinodemgr == dinodemgr
      ensures this.fac == fac && this.root == root && index == map[[] := ROOT_INO] && tree == EMPTYFS
    {
      this.io, this.dirmgr, this.iexmgr, this.dinodemgr := io, dirmgr, iexmgr, dinodemgr;
      this.fac, this.root := fac, root;
      index, tree := map[[] := ROOT_INO], EMPTYFS;
    }

    /** Dir::mkdir */
    method Mkdir(dir: Inode, name: Name, ghost open: set<nat>) returns (nextDir: Inode)
      requires Inv(open) && IsCwd(dir) && Room(|io.blocks|, 6)
      requires ValidName(name) && PathOf(dir) + [name] !in tree
      modifies this`index, this`tree, io, dirmgr, iexmgr, dinodemgr, fac, fac.freeInode, dir
      ensures IsCwd(dir) && dir.isMod && PathOf(dir) == old(PathOf(dir))
      ensures fresh(nextDir) && IsCwd(nextDir) && nextDir.isMod && nextDir.ino == |old(fac.nodes)|
      ensures PathOf(nextDir) == PathOf(dir) + [name]
      ensures tree == old(tree)[PathOf(dir) + [name] := Implicit]
      ensures fac.totalDataSize == old(fac.totalDataSize) && fac.freeInode == old(fac.freeInode)
      ensures |io.blocks| <= |old(io.blocks)| + 6 * BULKS
      ensures Inv(Opened(open, |old(fac.nodes)|, dir.ino))
    {
      hide InodeFactory.Ok, FsIO.Ok, SpaceManager.Ok, SpaceOk, VolOk, Synced, TreeOk, Represents, NewAttrs, EntryOk,
           DotRecs, R.Added;
      ghost var n0 := fac.nodes;
      ghost var path := PathOf(dir) + [name];
      ghost var n1;
      nextDir, n1 := MakeDir(dir, name, open);
      NewDirEntry(NodeOf(nextDir, path));
      Entered(n0, n1, fac.nodes, index, tree, dir.ino, name, NodeOf(nextDir, path), FtypeCode(DIR), Implicit);
      index := index[path := |n0|];
      tree := tree[path := Implicit];
    }

    lemma NewDirEntry(n: Node)
      requires NewAttrs(n.d, DIR) && n.recs != [] && n.intact
      ensures n.d.fmt == DIR && n.d.nlink == 2 && EntryOk(n, Implicit)
    {
    }

    /** The two steps of mkdir; n1 is the node list between them. */
    method MakeDir(dir: Inode, name: Name, ghost open: set<nat>) returns (nextDir: Inode, ghost n1: seq<Node>)
      requires DeviceOk() && fac.Ok(io, open) && IsCwd(dir) && Room(|io.blocks|, 6)
      requires ValidName(name)
      modifies io, dirmgr, iexmgr, dinodemgr, fac`nodes, fac`inodeNum, fac.freeInode, dir
      ensures DeviceOk() && fac.Ok(io, Opened(open, |old(fac.nodes)|, dir.ino))
      ensures fac.Stands(dir) && dir.isMod && dir.IsDir() && dir.intact
      ensures fresh(nextDir) && fac.Stands(nextDir) && nextDir.isMod && nextDir.ino == |old(fac.nodes)|
      ensures Enters(old(fac.nodes), n1, fac.nodes, dir.ino, name,
                     NodeOf(nextDir, old(PathOf(dir)) + [name]), FtypeCode(DIR))
      ensures NewAttrs(nextDir.dinode, DIR) && nextDir.recs != [] && nextDir.intact
      ensures old(Table(fac.nodes)) <= Table(fac.nodes)
      ensures |io.blocks| <= |old(io.blocks)| + 6 * BULKS
    {
      hide InodeFactory.Ok, SpaceOk, VolOk, Synced, DotRecs, R.Added;
      ghost var n0 := fac.nodes;
      ghost var path := PathOf(dir) + [name];
      fac.InoBelow(io, open, dir);
      var now := CurrentTime();
      var dirty: bool := *;
      nextDir := fac.AllocInode(io, dirmgr, iexmgr, dinodemgr, dir.ino, DIR, now, dirty, path, open);
      n1 := fac.nodes;
      LinkNew(dir, name, nextDir, n0, path, open + {|n0|});
    }

    /** Dir::create; the entry's last component is the name. */
    method Create(dir: Inode, f: File, ghost open: set<nat>) returns (inode: Inode)
      requires Inv(open) && IsCwd(dir) && Room(|io.blocks|, 6)
      requires f.Valid() && f.Within(io.orgblks) && PathOf(dir) == f.path[..|f.path| - 1] && f.path !in tree
      modifies this`index, this`tree, io, dirmgr, iexmgr, dinodemgr, fac, fac.freeInode, dir
      ensures IsCwd(dir) && dir.isMod && PathOf(dir) == old(PathOf(dir))
      ensures fresh(inode) && fac.Stands(inode) && inode.isMod && inode.ino == |old(fac.nodes)|
      ensures tree == old(tree)[f.path := GivenIn(old(tree), f)]
      ensures fac.totalDataSize == old(fac.totalDataSize) + if f.Fmt() == REG then f.Blocks() else 0
      ensures fac.freeInode == old(fac.freeInode)
      ensures |io.blocks| <= |old(io.blocks)| + 6 * BULKS
      ensures Inv(Opened(open, |old(fac.nodes)|, dir.ino))
    {
      hide InodeFactory.Ok, FsIO.Ok, SpaceManager.Ok, SpaceOk, VolOk, Synced, TreeOk, Represents, EntryOk;
      ghost var e := GivenIn(tree, f);
      ghost var n := |fac.nodes|;
      inode := EnterFile(dir, f, open);
      index := index[f.path := n];
      tree := tree[f.path := e];
    }

    /** The new inode is in its directory; the tree has one more entry. */
    method EnterFile(dir: Inode, f: File, ghost open: set<nat>) returns (inode: Inode)
      requires Inv(open) && IsCwd(dir) && Room(|io.blocks|, 6)
      requires f.Valid() && f.Within(io.orgblks) && PathOf(dir) == f.path[..|f.path| - 1] && f.path !in tree
      modifies io, dirmgr, iexmgr, dinodemgr, fac`nodes, fac`inodeNum, fac`totalDataSize, fac.freeInode, dir
      ensures DeviceOk() && fac.Ok(io, Opened(open, |old(fac.nodes)|, dir.ino))
      ensures IsCwd(dir) && dir.isMod && PathOf(dir) == old(PathOf(dir)) && fac.Stands(root)
      ensures fresh(inode) && fac.Stands(inode) && inode.isMod && inode.ino == |old(fac.nodes)|
      ensures |fac.nodes| == |old(fac.nodes)| + 1
      ensures TreeOk(fac.nodes, index[f.path := |old(fac.nodes)|])
      ensures Represents(fac.nodes, index[f.path := |old(fac.nodes)|], tree[f.path := GivenIn(tree, f)])
      ensures fac.totalDataSize == old(fac.totalDataSize) + if f.Fmt() == REG then f.Blocks() else 0
      ensures |io.blocks| <= |old(io.blocks)| + 6 * BULKS
    {
      hide InodeFactory.Ok, FsIO.Ok, SpaceManager.Ok, SpaceOk, VolOk, Synced, TreeOk, Represents, EntryOk, DotRecs,
           R.Added, DeviceOk;
      ghost var n0 := fac.nodes;
      ghost var n1;
      ghost var name := f.path[|f.path| - 1];
      assert f.path == PathOf(dir) + [name] && name in f.path;
      inode, n1 := MakeFile(dir, f, open);
      Entered(n0, n1, fac.nodes, index, tree, dir.ino, name, NodeOf(inode, f.path), FtypeCode(f.Fmt()),
              GivenIn(tree, f));
    }

    /** The two steps of create. */
    method MakeFile(dir: Inode, f: File, ghost open: set<nat>) returns (inode: Inode, ghost n1: seq<Node>)
      requires DeviceOk() && fac.Ok(io, open) && IsCwd(dir) && Room(|io.blocks|, 6)
      requires f.Valid() && f.Within(io.orgblks) && PathOf(dir) == f.path[..|f.path| - 1]
      modifies io, dirmgr, iexmgr, dinodemgr, fac`nodes, fac`inodeNum, fac`totalDataSize, fac.freeInode, dir
      ensures DeviceOk() && fac.Ok(io, Opened(open, |old(fac.nodes)|, dir.ino))
      ensures fac.Stands(dir) && dir.isMod && dir.IsDir() && dir.intact
      ensures fresh(inode) && fac.Stands(inode) && inode.isMod && inode.ino == |old(fac.nodes)|
      ensures Enters(old(fac.nodes), n1, fac.nodes, dir.ino, f.path[|f.path| - 1],
                     NodeOf(inode, f.path), FtypeCode(f.Fmt()))
      ensures EntryOk(NodeOf(inode, f.path), NewEntry(f)) && old(Table(fac.nodes)) <= Table(fac.nodes)
      ensures fac.totalDataSize == old(fac.totalDataSize) + if f.Fmt() == REG then f.Blocks() else 0
      ensures |io.blocks| <= |old(io.blocks)| + 6 * BULKS
    {
      hide InodeFactory.Ok, SpaceOk, VolOk, Synced, DotRecs, R.Added, EntryOk, NewEntry, Enters, FsIO.Ok,
           SpaceManager.Ok;
      ghost var n0 := fac.nodes;
      var name := f.path[|f.path| - 1];
      assert f.path == f.path[..|f.path| - 1] + [name] && name in f.path;
      inode := IssueFile(dir, f, open);
      n1 := fac.nodes;
      LinkNew(dir, name, inode, n0, f.path, open + {|n0|});
    }

    /** The first step: the inode of the entry is issued. */
    method IssueFile(dir: Inode, f: File, ghost open: set<nat>) returns (inode: Inode)
      requires DeviceOk() && fac.Ok(io, open) && IsCwd(dir) && Room(|io.blocks|, 6)
      requires f.Valid() && f.Within(io.orgblks)
      modifies io, dirmgr, iexmgr, dinodemgr, fac`nodes, fac`inodeNum, fac`totalDataSize, fac.freeInode
      ensures DeviceOk() && fac.Ok(io, open + {|old(fac.nodes)|})
      ensures fac.Stands(dir) && dir.recs != [] && dir.ino < |old(fac.nodes)|
      ensures fac.nodes[dir.ino] == old(fac.nodes)[dir.ino]
      ensures fresh(inode) && fac.Stands(inode) && inode.isMod && inode.ino == |old(fac.nodes)| < TARBLK_NONE
      ensures fac.nodes == old(fac.nodes)[0 := fac.nodes[0]] + [NodeOf(inode, f.path)]
      ensures EntryOk(NodeOf(inode, f.path), NewEntry(f)) && old(Table(fac.nodes)) <= Table(fac.nodes)
      ensures inode.dinode.fmt == f.Fmt() && inode.dinode.nlink == if inode.IsDir() then 2 else 1
      ensures inode.recs == if inode.IsDir() then DotRecs(inode.ino, dir.ino) else []
      ensures fac.totalDataSize == old(fac.totalDataSize) + if f.Fmt() == REG then f.Blocks() else 0
      ensures |io.blocks| <= |old(io.blocks)| + 4 * BULKS
    {
      hide InodeFactory.Ok, SpaceOk, VolOk, Synced, DotRecs, R.Added;
      fac.InoBelow(io, open, dir);
      var now := CurrentTime();
      var dirty: bool := *;
      inode := fac.AllocFileInode(io, dirmgr, iexmgr, dinodemgr, dir.ino, f, now, dirty, f.path, open);
    }

    /** The second step: the inode that was just issued is entered in its directory. */
    method LinkNew(dir: Inode, name: Name, inode: Inode, ghost n0: seq<Node>, ghost path: Path, ghost open: set<nat>)
      requires DeviceOk() && fac.Ok(io, open) && Room(|io.blocks|, 2)
      requires fac.Stands(dir) && dir.IsDir() && dir.intact && dir.recs != [] && dir != fac.freeInode
      requires ValidName(name)
      requires fac.Stands(inode) && inode != dir && inode.ino == |n0| < TARBLK_NONE && 0 < dir.ino < |n0|
      requires n0[dir.ino] == fac.nodes[dir.ino] && path == n0[dir.ino].path + [name]
      requires fac.nodes == n0[0 := fac.nodes[0]] + [NodeOf(inode, path)]
      requires inode.dinode.nlink == if inode.IsDir() then 2 else 1
      requires inode.recs == if inode.IsDir() then DotRecs(|n0|, dir.ino) else []
      modifies io, dirmgr, iexmgr, fac`nodes, dir
      ensures DeviceOk() && fac.Ok(io, open + {dir.ino})
      ensures fac.Stands(dir) && dir.isMod && dir.IsDir() && dir.intact && fac.Stands(inode)
      ensures |fac.nodes| == |n0| + 1 && fac.nodes[0] == old(fac.nodes)[0]
      ensures Enters(n0, old(fac.nodes), fac.nodes, dir.ino, name, NodeOf(inode, path), FtypeCode(inode.dinode.fmt))
      ensures |io.blocks| <= |old(io.blocks)| + 2 * BULKS
    {
      hide InodeFactory.Ok, SpaceOk, VolOk, Synced, DotRecs, R.Added;
      fac.LinkName(io, dirmgr, iexmgr, dir, name, inode, open);
    }

    /** What looking `name` up in `dir` must find. */
    lemma NameMeans(dir: Inode, name: Name, open: set<nat>)
      requires Inv(open) && IsCwd(dir) && ValidName(name) && open <= {FREE_INO, ROOT_INO}
      ensures Readable(io, dir) && |fac.nodes| > 0 && MapReadable(io.blocks, fac.nodes[0])
      ensures R.Lookup(dir.recs, name) == Target(PathOf(dir) + [name])
      ensures var p := PathOf(dir) + [name];
              && (p in tree <==> Target(p).Some?)
              && (Target(p).Some? ==>
                    var j := Target(p).value;
                    && ROOT_INO < j < |fac.nodes| && OnDisk(io.blocks, fac.nodes, j)
                    && fac.nodes[j].path == p && EntryOk(fac.nodes[j], tree[p]))
    {
      hide SpaceOk, VolOk, R.Lookup, EntryOk, TreeOk, Represents, Readable, MapReadable, OnDisk, Synced, DirInv;
      fac.DirNodeInv(io, open, dir);
      NameTarget(fac.nodes, index, tree, dir.ino, name);
      DirReadable(io, dir);
      VolReadable(io.V(), fac.nodes, 0);
      var p := PathOf(dir) + [name];
      if p in index {
        SyncedOnDisk(io.V(), fac.nodes, open, index[p]);
      }
    }

    ghost function Target(p: Path): Option<nat>
      reads this
    {
      if p in index then Some(index[p]) else None
    }

    /** The next directory on the way: looked up, or made if it is missing; null if it is no intact directory. */
    method FindOrMake(dir: Inode, name: Name) returns (nextDir: Inode?, r: Added, ghost open: set<nat>)
      requires Inv({FREE_INO, ROOT_INO}) && IsCwd(dir) && Room(|io.blocks|, 6) && ValidName(name)
      modifies this`index, this`tree, io, dirmgr, iexmgr, dinodemgr, fac, fac.freeInode, dir
      ensures r == StepInto(old(tree), old(PathOf(dir)) + [name]) && (nextDir != null <==> r == Done)
      ensures var p := old(PathOf(dir)) + [name];
              nextDir != null ==>
                && fresh(nextDir) && IsCwd(nextDir) && PathOf(nextDir) == p
                && nextDir.ino > ROOT_INO && nextDir.ino != dir.ino
                && tree == (if p in old(tree) then old(tree) else old(tree)[p := Implicit])
                && open <= {FREE_INO, ROOT_INO, nextDir.ino, dir.ino}
                && (nextDir.isMod || nextDir.ino !in open) && (dir.isMod || dir.ino !in open || dir == root)
      ensures IsCwd(dir) && PathOf(dir) == old(PathOf(dir))
      ensures nextDir == null ==> open == {FREE_INO, ROOT_INO} && tree == old(tree)
      ensures fac.totalDataSize == old(fac.totalDataSize) && fac.freeInode == old(fac.freeInode)
      ensures |io.blocks| <= |old(io.blocks)| + 6 * BULKS
      ensures {FREE_INO, ROOT_INO} <= open && Inv(open)
    {
      hide SpaceOk, VolOk, Synced, TreeOk, Represents, EntryOk, Readable, MapReadable, OnDisk, R.Lookup, OwnRecords;
      open := {FREE_INO, ROOT_INO};
      NameMeans(dir, name, open);
      var dirty: bool := *;
      nextDir := fac.Lookup(io, dir, name, dirty);
      if nextDir == null {
        nextDir := Mkdir(dir, name, open);
        open := Opened(open, nextDir.ino, dir.ino);
        r := Done;
      } else {
        KindOf(fac.nodes[nextDir.ino], tree[PathOf(dir) + [name]]);
        r := Kind(nextDir, open);
        if r != Done {
          nextDir := null;
        }
      }
    }

    /** What is found on the way: not a directory, a directory whose records would be archive bytes, or one to enter. */
    method Kind(inode: Inode, ghost open: set<nat>) returns (r: Added)
      requires fac.Ok(io, open) && fac.Stands(inode)
      ensures r == if !inode.IsDir() then Stuck else if !inode.intact then Astray else Done
    {
      hide InodeFactory.Ok, OwnRecords;
      if !inode.IsDir() {
        return Stuck;
      }
      fac.IntactTest(io, open, inode);
      r := if OwnRecords(inode.dinode, io.orgblks) then Done else Astray;
    }

    /** After a step down: the child, then the directory unless it is the root, are written back. */
    method SyncPair(dir: Inode, child: Inode, ghost open: set<nat>)
      requires fac.Stands(child) && fac.Stands(dir) && (dir == root || dir.ino > ROOT_INO) && child.ino != dir.ino
      requires {FREE_INO, ROOT_INO} <= open <= {FREE_INO, ROOT_INO, child.ino, dir.ino} && child.ino > ROOT_INO
      requires (child.isMod || child.ino !in open) && (dir.isMod || dir.ino !in open || dir == root)
      requires Inv(open)
      modifies io`blocks, io`blks, io`sb
      ensures |io.blocks| == |old(io.blocks)|
      ensures Inv({FREE_INO, ROOT_INO})
    {
      hide SpaceOk, VolOk, Synced, TreeOk, Represents;
      fac.SyncInode(io, child, open);
      if dir != root {
        fac.SyncInode(io, dir, open - {child.ino});
        assert open - {child.ino} - {dir.ino} == {FREE_INO, ROOT_INO};
      } else {
        assert open - {child.ino} == {FREE_INO, ROOT_INO};
      }
    }

    /** One directory component of a path. */
    method NextDir(dir: Inode, name: Name) returns (nextDir: Inode?, r: Added)
      requires Inv({FREE_INO, ROOT_INO}) && IsCwd(dir) && Room(|io.blocks|, 6) && ValidName(name)
      modifies this`index, this`tree, io, dirmgr, iexmgr, dinodemgr, fac, fac.freeInode, dir
      ensures r == StepInto(old(tree), old(PathOf(dir)) + [name]) && (nextDir != null <==> r == Done)
      ensures var p := old(PathOf(dir)) + [name];
              nextDir != null ==>
                && fresh(nextDir) && IsCwd(nextDir) && PathOf(nextDir) == p
                && tree == (if p in old(tree) then old(tree) else old(tree)[p := Implicit])
      ensures fac.totalDataSize == old(fac.totalDataSize) && fac.freeInode == old(fac.freeInode)
      ensures nextDir == null ==> tree == old(tree)
      ensures |io.blocks| <= |old(io.blocks)| + 6 * BULKS
      ensures Inv({FREE_INO, ROOT_INO})
    {
      hide SpaceOk, VolOk, Synced, TreeOk, Represents, StepInto;
      ghost var open;
      nextDir, r, open := FindOrMake(dir, name);
      if nextDir == null {
        return;
      }
      SyncPair(dir, nextDir, open);
    }

    /** The last component: the entry is created, or its attributes replace the old ones. */
    method PutEntry(dir: Inode, f: File) returns (inode: Inode, ghost open: set<nat>)
      requires Inv({FREE_INO, ROOT_INO}) && IsCwd(dir) && Room(|io.blocks|, 6)
      requires f.Valid() && f.Within(io.orgblks) && PathOf(dir) == f.path[..|f.path| - 1]
      modifies this`index, this`tree, io, dirmgr, iexmgr, dinodemgr, fac, fac.freeInode, dir
      ensures fac.freeInode == old(fac.freeInode)
      ensures fac.Stands(dir) && (dir == root || dir.ino > ROOT_INO)
      ensures fresh(inode) && fac.Stands(inode) && inode.ino > ROOT_INO && inode.ino != dir.ino
      ensures {FREE_INO, ROOT_INO} <= open <= {FREE_INO, ROOT_INO, inode.ino, dir.ino}
      ensures inode.isMod && (dir.isMod || dir.ino !in open || dir == root)
      ensures tree == old(tree)[f.path := GivenIn(old(tree), f)]
      ensures |io.blocks| <= |old(io.blocks)| + 6 * BULKS
      ensures fac.totalDataSize == old(fac.totalDataSize)
                                   + if f.Fmt() == REG && f.path !in old(tree) then f.Blocks() else 0
      ensures Inv(open)
    {
      hide SpaceOk, VolOk, Synced, TreeOk, Represents, EntryOk, Readable, MapReadable, OnDisk, R.Lookup;
      var found := LookupLast(dir, f);
      if found == null {
        inode := Create(dir, f, {FREE_INO, ROOT_INO});
        open := Opened({FREE_INO, ROOT_INO}, inode.ino, dir.ino);
      } else {
        inode := found;
        open := ReplaceFile(dir, inode, f);
      }
    }

    /** The inode of the entry's path, if there is one already. */
    method LookupLast(dir: Inode, f: File) returns (found: Inode?)
      requires Inv({FREE_INO, ROOT_INO}) && IsCwd(dir)
      requires f.Valid() && PathOf(dir) == f.path[..|f.path| - 1]
      ensures found == null <==> f.path !in tree
      ensures found != null ==>
                && fresh(found) && fac.Stands(found) && found.ino > ROOT_INO && found.ino != dir.ino
                && f.path in index && index[f.path] == found.ino && EntryOk(fac.nodes[found.ino], tree[f.path])
    {
      hide SpaceOk, VolOk, Synced, TreeOk, Represents, EntryOk, Readable, MapReadable, OnDisk, R.Lookup;
      var name := f.path[|f.path| - 1];
      assert f.path == PathOf(dir) + [name] && name in f.path;
      NameMeans(dir, name, {FREE_INO, ROOT_INO});
      var dirty: bool := *;
      found := fac.Lookup(io, dir, name, dirty);
    }

    /** setFile on an existing inode. */
    method ReplaceFile(dir: Inode, inode: Inode, f: File) returns (ghost open: set<nat>)
      requires Inv({FREE_INO, ROOT_INO}) && fac.Stands(inode) && inode.ino > ROOT_INO && inode != fac.freeInode
      requires inode != root && inode != dir && fac.Stands(dir) && inode.ino != dir.ino
      requires f.Valid() && f.Within(io.orgblks) && f.path in tree
      requires f.path in index && index[f.path] == inode.ino && EntryOk(fac.nodes[inode.ino], tree[f.path])
      modifies this`tree, fac`nodes, inode
      ensures open == {FREE_INO, ROOT_INO, inode.ino} && inode.isMod && fac.Stands(inode) && fac.Stands(dir)
      ensures tree == old(tree)[f.path := GivenIn(old(tree), f)]
      ensures Inv(open)
    {
      hide InodeFactory.Ok, SpaceOk, VolOk, Synced, TreeOk, Represents, EntryOk, FileNode, ReplacedBy;
      ghost var n0 := fac.nodes;
      ghost var e := ReplacedBy(tree[f.path], f);
      open := {FREE_INO, ROOT_INO};
      fac.SetFile(io, inode, f, open);
      ReplacedEntry(n0[inode.ino], tree[f.path], f);
      Replaced(n0, fac.nodes, index, tree, f.path, e);
      tree := tree[f.path := e];
      open := open + {inode.ino};
    }

    /** The directories of a path, made where they are missing; null if what is there is no intact directory. */
    method WalkDirs(f: File) returns (dir: Inode?, r: Added)
      requires Inv({FREE_INO, ROOT_INO}) && f.Valid() && Room(|io.blocks|, 6 * |f.path|)
      modifies this`index, this`tree, io, dirmgr, iexmgr, dinodemgr, fac, fac.freeInode, root
      ensures (dir != null <==> r == Done) && (r == Stuck <==> Blocked(old(tree), f.path))
      ensures r == Astray <==> Strays(old(tree), f.path)
      ensures dir != null ==>
                && IsCwd(dir) && (dir == root || fresh(dir)) && PathOf(dir) == f.path[..|f.path| - 1]
                && tree == WithDirs(old(tree), f.path, |f.path| - 1)
      ensures fac.totalDataSize == old(fac.totalDataSize) && fac.freeInode == old(fac.freeInode)
      ensures |io.blocks| <= |old(io.blocks)| + 6 * (|f.path| - 1) * BULKS
      ensures Inv({FREE_INO, ROOT_INO})
    {
      hide IsCwd, SpaceOk, VolOk, Synced, TreeOk, Represents, WithDirs, Inv, IsIntact, Strays, Blocked, IsDirEntry;
      ghost var t := tree;
      dir := root;
      WithDirsStart(t, f.path);
      RootPath();
      OneWay(t, f.path, 1);
      for i := 0 to |f.path| - 1
        invariant fac.freeInode == old(fac.freeInode) && fac.totalDataSize == old(fac.totalDataSize)
        invariant |io.blocks| <= |old(io.blocks)| + 6 * i * BULKS
        invariant dir != null && (dir == root || fresh(dir)) && IsCwd(dir) && PathOf(dir) == f.path[..i]
        invariant tree == WithDirs(t, f.path, i)
        invariant IntactTo(t, f.path, i + 1)
        invariant Inv({FREE_INO, ROOT_INO})
      {
        StepDown(t, f.path, i);
        dir, r := NextDir(dir, f.path[i]);
        if dir == null {
          WayEnds(t, f.path, i + 1);
          return;
        }
      }
      r := Done;
    }

    /** The way ends at component `k`. */
    lemma WayEnds(t: Fs, path: Path, k: nat)
      requires 0 < k < |path| && IntactTo(t, path, k) && StepInto(t, path[..k]) != Done
      ensures Blocked(t, path) <==> StepInto(t, path[..k]) == Stuck
      ensures Strays(t, path) <==> StepInto(t, path[..k]) == Astray
    {
      hide IsIntact, IsDirEntry;
      OneWay(t, path, 1);
      assert Obstacle(t, path, k);
    }

    lemma WithDirsStart(t: Fs, path: Path)
      ensures WithDirs(t, path, 0) == t && path[..0] == []
    {
    }

    /** One more component of the path. */
    lemma StepDown(t: Fs, path: Path, i: nat)
      requires i < |path| && ValidPath(path)
      ensures ValidName(path[i]) && path[..i] + [path[i]] == path[..i + 1]
      ensures var p, t' := path[..i + 1], WithDirs(t, path, i);
              && (p in t' <==> p in t) && (p in t ==> t'[p] == t[p])
              && WithDirs(t, path, i + 1) == if p in t' then t' else t'[p := Implicit]
    {
      WithDirsKeys(t, path, i);
      assert path[i] in path;
    }

    /**
      * One archive entry. It is stuck where something on the way is no directory, and the image is rolled back; it
      * goes astray where something on the way is a directory that was something else.
      */
    method Add(f: File) returns (r: Added)
      requires Inv({FREE_INO, ROOT_INO}) && Room(|io.blocks|, 6 * |f.path|)
      requires f.Valid() && f.Within(io.orgblks)
      modifies this`index, this`tree, io, dirmgr, iexmgr, dinodemgr, fac, fac.freeInode, root
      ensures r == Stuck <==> Blocked(old(tree), f.path)
      ensures r == Astray <==> Strays(old(tree), f.path)
      ensures r == Stuck ==> io.blocks == io.tar
      ensures r == Astray ==> io.tar <= io.blocks
      ensures r == Done ==>
                && tree == AddEntry(old(tree), f)
                && fac.totalDataSize == old(fac.totalDataSize)
                                        + (if f.Fmt() == REG && f.path !in old(tree) then f.Blocks() else 0)
                && |io.blocks| <= |old(io.blocks)| + 6 * |f.path| * BULKS
      ensures fac.freeInode == old(fac.freeInode)
      ensures r != Stuck ==> Inv({FREE_INO, ROOT_INO})
    {
      hide Inv, WithDirs, Blocked, Strays, GivenIn;
      ghost var t := tree;
      var dir;
      dir, r := WalkDirs(f);
      TarFirst();
      AddMeaning(t, f);
      if r == Stuck {
        RollbackAll();
      } else if r == Done {
        LastComponent(dir, f);
      }
    }

    /** The tree after the directories are made and the entry is put. */
    lemma AddMeaning(t: Fs, f: File)
      requires |f.path| > 0
      ensures var t' := WithDirs(t, f.path, |f.path| - 1);
              && AddEntry(t, f) == t'[f.path := GivenIn(t', f)]
              && (f.path in t' <==> f.path in t)
    {
      WithDirsKeys(t, f.path, |f.path| - 1);
    }

    /** The last round of the loop in add. */
    method LastComponent(dir: Inode, f: File)
      requires Inv({FREE_INO, ROOT_INO}) && IsCwd(dir) && Room(|io.blocks|, 6)
      requires f.Valid() && f.Within(io.orgblks) && PathOf(dir) == f.path[..|f.path| - 1]
      modifies this`index, this`tree, io, dirmgr, iexmgr, dinodemgr, fac, fac.freeInode, dir
      ensures fac.freeInode == old(fac.freeInode)
      ensures tree == old(tree)[f.path := GivenIn(old(tree), f)]
      ensures |io.blocks| <= |old(io.blocks)| + 6 * BULKS
      ensures fac.totalDataSize == old(fac.totalDataSize)
                                   + if f.Fmt() == REG && f.path !in old(tree) then f.Blocks() else 0
      ensures Inv({FREE_INO, ROOT_INO})
    {
      hide SpaceOk, VolOk, Synced, TreeOk, Represents, GivenIn;
      var inode;
      ghost var open;
      inode, open := PutEntry(dir, f);
      SyncPair(dir, inode, open);
    }

    /**
      * lookup and create of the last round where the directory was something else and its data in the archive reads
      * as records, none of that name: the archive is overwritten if and only if one of them has room for it.
      */
    method LastAstray(dir: Inode, f: File, ghost recs: seq<R.Rec>)
      requires Inv({FREE_INO, ROOT_INO}) && Room(|io.blocks|, 6)
      requires fac.Stands(dir) && dir != fac.freeInode && dir != root && dir.IsDir() && !dir.intact
      requires f.Valid() && f.Within(io.orgblks) && ReadsAs(io.tar, dir, recs)
      requires R.Lookup(recs, f.path[|f.path| - 1]) == None
      modifies io, dirmgr, iexmgr, dinodemgr, fac`nodes, fac`inodeNum, fac`totalDataSize, fac.freeInode, dir
      ensures ArchiveKept(io) <==> R.FindRoom(recs, DirentSize(|f.path[|f.path| - 1]|)) == |recs|
      ensures |io.blocks| >= |io.tar|
    {
      hide InodeFactory.Ok, FsIO.Ok, SpaceManager.Ok, SpaceOk, TreeOk, Represents, Readable, R.Encodes, R.Lookup,
           R.FindRoom, Bufs, ArchiveKept;
      var name := f.path[|f.path| - 1];
      fac.AstrayMap({FREE_INO, ROOT_INO}, io, dir);
      fac.InoBelow(io, {FREE_INO, ROOT_INO}, dir);
      dir.recs := recs;
      AstrayReads(io, dir);
      var r := FindEntry(dir, io, name);
      assert r == None;
      CreateAstray(dir, f);
    }

    /** create in that directory. */
    method CreateAstray(dir: Inode, f: File)
      requires DeviceOk() && fac.Ok(io, {FREE_INO, ROOT_INO}) && Room(|io.blocks|, 6)
      requires dir.ino < TARBLK_NONE && dir != fac.freeInode && MapsArchive(dir, io.orgblks)
      requires f.Valid() && f.Within(io.orgblks) && ReadsAs(io.tar, dir, dir.recs)
      modifies io, dirmgr, iexmgr, dinodemgr, fac`nodes, fac`inodeNum, fac`totalDataSize, fac.freeInode, dir
      ensures ArchiveKept(io)
              <==> R.FindRoom(old(dir.recs), DirentSize(|f.path[|f.path| - 1]|)) == |old(dir.recs)|
      ensures |io.blocks| >= |io.tar|
    {
      hide InodeFactory.Ok, FsIO.Ok, SpaceManager.Ok, SpaceOk, EntryOk, NewEntry, DotRecs, Readable, ReadsAs,
           R.FindRoom, MapsArchive, ArchiveKept;
      var name := f.path[|f.path| - 1];
      assert name in f.path;
      var now := CurrentTime();
      var dirty: bool := *;
      var inode := fac.AllocFileInode(io, dirmgr, iexmgr, dinodemgr, dir.ino, f, now, dirty, f.path,
                                      {FREE_INO, ROOT_INO});
      AddAstray(dir, io, dirmgr, iexmgr, name, inode);
    }

    lemma TarFirst()
      requires Inv({FREE_INO, ROOT_INO})
      ensures io.tar <= io.blocks
    {
      hide SpaceOk, VolOk, Synced, TreeOk, Represents;
    }

    method RollbackAll()
      requires Inv({FREE_INO, ROOT_INO})
      modifies io
      ensures io.blocks == io.tar
    {
      io.Rollback();
    }

    lemma RootPath()
      requires Inv({FREE_INO, ROOT_INO})
      ensures IsCwd(root) && PathOf(root) == []
    {
    }

    /** The summary fields of the superblock. */
    method FillSuper()
      requires Inv({FREE_INO, ROOT_INO})
      modifies io`sb
      ensures SuperReady(io.sb) && io.sb.dsize == fac.totalDataSize
      ensures Inv({FREE_INO, ROOT_INO})
    {
      hide SpaceOk, VolOk, Synced, TreeOk, Represents;
      io.sb := io.sb.(dsize := fac.totalDataSize);
      io.sb := io.sb.(flistDirdata := dirmgr.blkno, flistIexdata := iexmgr.blkno, flistDinode := dinodemgr.blkno);
      io.sb := io.sb.(inodes := fac.inodeNum, maxino := fac.inodeNum);
    }

    ghost predicate SuperReady(sb: SBlock)
      reads this, dirmgr, iexmgr, dinodemgr, fac
    {
      && sb.inodes == sb.maxino == |fac.nodes|
      && sb.flistDirdata == dirmgr.blkno && sb.flistIexdata == iexmgr.blkno && sb.flistDinode == dinodemgr.blkno
    }

    /** The two inodes kept in memory are written at last. */
    method Flush()
      requires Inv({FREE_INO, ROOT_INO})
      modifies io`blocks, io`blks, io`sb
      ensures DeviceOk() && VolOk(io.V(), fac.nodes) && Synced(io.V(), fac.nodes, {})
      ensures |io.blocks| == |old(io.blocks)| && io.sb == old(io.sb)
    {
      hide SpaceOk, VolOk, Synced, TreeOk, Represents;
      fac.SyncInode(io, root, {FREE_INO, ROOT_INO});
      fac.Fin(io, {FREE_INO, ROOT_INO} - {ROOT_INO});
      assert {FREE_INO, ROOT_INO} - {ROOT_INO} - {FREE_INO} == {};
    }

    /** FsMaker::complete */
    method Complete() returns (ghost v: Vol)
      requires Inv({FREE_INO, ROOT_INO})
      modifies io`blocks, io`blks, io`sb
      ensures IsImage(io.blocks, io.tar, v, fac.nodes, index, tree, fac.totalDataSize)
    {
      hide SpaceOk, VolOk, Synced, TreeOk, Represents;
      FillSuper();
      Flush();
      v := io.V();
      SpaceShape(v);
      io.WriteSuper();
    }

  }

  lemma Replaced(n0: seq<Node>, n1: seq<Node>, index: map<Path, nat>, t: Fs, p: Path, e: Entry)
    requires TreeOk(n0, index) && Represents(n0, index, t) && p in t && p in index
    requires var i := index[p];
             0 < i < |n0| && |n1| == |n0| && n1 == n0[i := n1[i]] && SameNaming(n0[i], n1[i]) && EntryOk(n1[i], e)
    requires index[p] > ROOT_INO
    ensures TreeOk(n1, index) && Represents(n1, index, t[p := e])
  {
    hide EntryOk, TreeOk, Represents;
    KeysAgree(n0, index, t);
    RootIsDir(n0, index);
    TreeSame(n0, n1, index);
    RepresentsSet(n0, index, t, p, n1[index[p]], e);
  }

  /** The block reads as a superblock. */
  predicate HasMagic(b: Block) {
    b.SuperBlk? || (b.Raw? && |b.bytes| >= 8 && Bytes.Decode(b.bytes[..8]) == TARSBLOCK_MAGIC)
  }

  /** Among archive blocks these are the ones that start with the eight bytes of the superblock's magic number. */
  lemma MagicBytes(b: Block)
    requires b.Raw? && |b.bytes| >= 8
    ensures HasMagic(b) <==> b.bytes[..8] == [0xFE, 0xCA, 0xAF, 0xBE, 0, 0, 0, 0]
  {
    Bytes.EncodeDecode(b.bytes[..8]);
    MagicEncoded();
  }

  lemma MagicEncoded()
    ensures Bytes.Encode(0xBEAF_CAFE, 8) == [0xFE, 0xCA, 0xAF, 0xBE, 0, 0, 0, 0]
    ensures Bytes.Decode([0xFE, 0xCA, 0xAF, 0xBE, 0, 0, 0, 0]) == 0xBEAF_CAFE
  {
    Bytes.RoundTrip64(0xBEAF_CAFE);
    hide Bytes.Decode;
    assert Bytes.Encode(0xBEAF, 6) == [0xAF, 0xBE, 0, 0, 0, 0] by {
      assert Bytes.Encode(0, 4) == [0, 0, 0, 0] by { assert Bytes.Encode(0, 2) == [0, 0]; }
      assert Bytes.Encode(0xBE, 5) == [0xBE, 0, 0, 0, 0];
    }
  }

  /** The file carries metadata: its last block reads as a superblock. */
  predicate HasSuper(img: seq<Block>) {
    img != [] && HasMagic(img[|img| - 1])
  }

  /** Nothing to build on: the file is empty or carries metadata already. */
  predicate Declined(tar: seq<Block>) {
    tar == [] || HasSuper(tar)
  }

  /** FsMaker::create: null exactly for an empty file and for one that carries metadata already. */
  method Create(tar: seq<Block>) returns (m: FsMaker?)
    requires Declined(tar) || Room(|tar|, 6)
    ensures m == null <==> Declined(tar)
    ensures tar != [] && tar[|tar| - 1].Raw? && |tar[|tar| - 1].bytes| >= 8 ==>
              (m == null <==> tar[|tar| - 1].bytes[..8] == [0xFE, 0xCA, 0xAF, 0xBE, 0, 0, 0, 0])
    ensures m != null ==>
              && fresh(m) && fresh({m.io, m.dirmgr, m.iexmgr, m.dinodemgr, m.fac, m.fac.freeInode, m.root})
              && m.io.tar == tar && m.io.orgblks == |tar| && m.tree == EMPTYFS && m.fac.totalDataSize == 0
              && |m.io.blocks| <= |tar| + 6 * BULKS
    ensures m != null ==> m.Inv({FREE_INO, ROOT_INO})
  {
    hide SpaceOk, VolOk, Synced, TreeOk, Represents;
    if tar != [] && tar[|tar| - 1].Raw? && |tar[|tar| - 1].bytes| >= 8 { MagicBytes(tar[|tar| - 1]); }
    if tar == [] || HasMagic(tar[|tar| - 1]) {
      return null;
    }
    hide HasMagic;
    var io, dirmgr, iexmgr, dinodemgr := OpenImage(tar);
    var fac, root := MakeRoot(io, dirmgr, iexmgr, dinodemgr);
    m := new FsMaker(io, dirmgr, iexmgr, dinodemgr, fac, root);
  }

  /** inode 0, then the root directory, which is its own parent. */
  method MakeRoot(io: FsIO, dirmgr: SpaceManager, iexmgr: SpaceManager, dinodemgr: SpaceManager)
    returns (fac: InodeFactory, root: Inode)
    requires io.Ok() && dirmgr.Ok(io) && iexmgr.Ok(io) && dinodemgr.Ok(io)
    requires dirmgr.id == DIRMGR && iexmgr.id == IEXMGR && dinodemgr.id == DINODEMGR
    requires |io.blocks| == io.orgblks && io.pools[DINODEMGR] == Pool(0, 0) && Room(|io.blocks|, 6)
    modifies io, dirmgr, iexmgr, dinodemgr
    ensures io.Ok() && dirmgr.Ok(io) && iexmgr.Ok(io) && dinodemgr.Ok(io)
    ensures fresh({fac, fac.freeInode, root}) && fac.Ok(io, {FREE_INO, ROOT_INO}) && fac.Stands(root)
    ensures root != fac.freeInode && root.ino == ROOT_INO && root.isMod && fac.totalDataSize == 0
    ensures |io.blocks| <= |old(io.blocks)| + 6 * BULKS
    ensures |fac.nodes| == 2 && TreeOk(fac.nodes, map[[] := ROOT_INO])
    ensures Represents(fac.nodes, map[[] := ROOT_INO], EMPTYFS)
  {
    hide SpaceOk, VolOk, Synced, TreeOk, Represents, DotRecs;
    var now := CurrentTime();
    var dirty: bool := *;
    fac := new InodeFactory(io, dinodemgr, iexmgr, now, dirty);
    now := CurrentTime();
    root := fac.AllocInode(io, dirmgr, iexmgr, dinodemgr, ROOT_INO, DIR, now, dirty, [], {FREE_INO});
    RootTree(fac.nodes[0], fac.nodes[1]);
    assert fac.nodes == [fac.nodes[0], fac.nodes[1]];
    assert {FREE_INO} + {1} == {FREE_INO, ROOT_INO};
  }
}
