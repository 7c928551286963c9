/** Reopening a finished image (cmd_c++/fsreader.cc) and removing its metadata (cmd_c++/detachtarfs.cc). */
module Reader {
  import opened Meta
  import opened Extents
  import opened ExtMap
  import opened Volume
  import opened Space
  import opened Nodes
  import opened Inodes
  import opened Dirs
  import opened Factory
  import opened Tree
  import opened Maker
  import R = Records

  /** A block appended behind a volume hides nothing from a reader. */
  lemma RepBelow(blocks: seq<Block>, img: seq<Block>, d: Dinode, exts: seq<Ext>, chain: seq<nat>)
    requires ExtRep(blocks, d, exts, chain) && blocks <= img
    ensures ExtRep(img, d, exts, chain)
  {
    forall k | 0 <= k < |chain|
      ensures ChainBlk(img, exts, chain, k)
    {
      assert ChainBlk(blocks, exts, chain, k);
    }
  }

  /** The node of a directory can be read from `img`. */
  predicate DirReadableAt(img: seq<Block>, n: Node) {
    var flat := Flat(n.exts);
    && MadeDir(n)
    && n.d.size == TAR_BLOCKSIZE * |flat|
    && (forall k :: 0 <= k < |flat| ==> flat[k] < |img|)
    && R.Encodes(Bufs(img, flat), n.recs)
  }

  lemma DirBelow(v: Vol, img: seq<Block>, i: nat, n: Node)
    requires SpaceOk(v) && MadeDir(n) && DirOk(v, i, n.d, n.exts, n.recs) && v.blocks <= img
    ensures DirReadableAt(img, n)
  {
    var flat := Flat(n.exts);
    forall k | 0 <= k < |flat|
      ensures flat[k] < |v.blocks| && img[flat[k]] == v.blocks[flat[k]]
    {
      assert v.owner[flat[k]] == DirData(i, k);
    }
    assert Bufs(img, flat) == Bufs(v.blocks, flat);
  }

  lemma NodeReadable(v: Vol, img: seq<Block>, nodes: seq<Node>, i: nat)
    requires VolOk(v, nodes) && Synced(v, nodes, {}) && v.blocks <= img && i < |nodes|
    ensures MapReadable(img, nodes[i]) && OnDisk(img, nodes, i)
    ensures nodes[i].intact ==> DirReadableAt(img, nodes[i])
    ensures i > 0 && nodes[i].d.fmt == DIR ==> (nodes[i].intact <==> OwnRecords(nodes[i].d, v.org))
  {
    VolReadable(v, nodes, i);
    SyncedOnDisk(v, nodes, {}, i);
    NodeAt(v, nodes, i);
    RepBelow(v.blocks, img, nodes[i].d, nodes[i].exts, nodes[i].chain);
    hide Synced, Table;
    if nodes[i].intact {
      DirBelow(v, img, i, nodes[i]);
    }
    if i > 0 && nodes[i].d.fmt == DIR {
      hide OwnRecords;
      IntactOwns(v, i, nodes[i]);
    }
  }

  class FsReader {
    const io: FsIO
    const sb: SBlock
    const fac: InodeFactory
    const root: Inode

    constructor (io: FsIO, sb: SBlock, fac: InodeFactory, root: Inode)
      ensures this.io == io && this.sb == sb && this.fac == fac && this.root == root
    {
      this.io, this.sb, this.fac, this.root := io, sb, fac, root;
    }

    /** Every inode of the image can be read; inode 0 stands where the archive ended. */
    ghost predicate Ok(index: map<Path, nat>, t: Fs)
      reads io, fac, fac.freeInode, root
    {
      && fac.Holds0() && fac.Stands(root) && root.ino == ROOT_INO
      && MapReadable(io.blocks, fac.nodes[0])
      && (forall i :: 0 < i < |fac.nodes| ==> CanRead(io.blocks, fac.nodes, i, sb.free))
      && TreeOk(fac.nodes, index) && Represents(fac.nodes, index, t)
    }

    /** One step of a walk: a name looked up in a directory of the image, unless its records would be archive bytes. */
    method Child(cur: Inode, name: Name, ghost index: map<Path, nat>, ghost t: Fs, ghost path: Path)
      returns (next: Inode?, astray: bool)
      requires Ok(index, t) && fac.Stands(cur) && fac.nodes[cur.ino].path == path && Reaches(t, path)
      requires name != R.DOT && name != R.DOTDOT
      ensures next != null <==> Reaches(t, path + [name])
      ensures astray <==> IsDirEntry(t[path]) && !IsIntact(t[path])
      ensures next != null ==> fac.Stands(next) && fac.nodes[next.ino].path == path + [name] && !astray
    {
      hide TreeOk, Represents, MapReadable, OnDisk, R.Lookup, EntryOk, Reaches, IsDirEntry, IsIntact, OwnRecords;
      Arrived(fac.nodes, index, t, cur.ino);
      KindOf(fac.nodes[cur.ino], t[path]);
      ReachesChild(t, path, name);
      assert CanRead(io.blocks, fac.nodes, cur.ino, sb.free);
      next := null;
      astray := cur.IsDir() && !OwnRecords(cur.dinode, sb.free);
      if cur.IsDir() && !astray {
        NameTarget(fac.nodes, index, t, cur.ino, name);
        CanReadDir(io, cur, fac.nodes[cur.ino]);
        hide DirReadableAt;
        var j := R.Lookup(cur.recs, name);
        assert j.Some? ==> CanRead(io.blocks, fac.nodes, j.value, sb.free);
        var dirty: bool := *;
        next := fac.Lookup(io, cur, name, dirty);
      }
    }

    /** Walking a path from the root, one lookup per component. */
    method Walk(path: Path, ghost index: map<Path, nat>, ghost t: Fs) returns (inode: Inode?, astray: bool)
      requires Ok(index, t) && forall c :: c in path ==> c != R.DOT && c != R.DOTDOT
      ensures (inode != null <==> Reaches(t, path)) && (astray <==> Strays(t, path))
      ensures inode != null ==>
                fac.Stands(inode) && fac.nodes[inode.ino].path == path && EntryOk(fac.nodes[inode.ino], t[path])
    {
      hide Ok, TreeOk, Represents, EntryOk, Reaches, Strays, IsIntact;
      RootAt(index, t);
      inode, astray := root, false;
      Arrived(fac.nodes, index, t, root.ino);
      ReachesRoot(t);
      for i := 0 to |path|
        invariant inode != null && fac.Stands(inode) && fac.nodes[inode.ino].path == path[..i]
        invariant Reaches(t, path[..i]) && !astray
      {
        assert path[i] in path && path[..i] + [path[i]] == path[..i + 1];
        inode, astray := Child(inode, path[i], index, t, path[..i]);
        if inode == null {
          WalkEnds(fac.nodes, index, t, path, i);
          return;
        }
      }
      assert path[..|path|] == path;
      ReachesPasses(t, path);
      Arrived(fac.nodes, index, t, inode.ino);
    }

    lemma RootAt(index: map<Path, nat>, t: Fs)
      requires Ok(index, t)
      ensures fac.Stands(root) && fac.nodes[root.ino].path == []
      ensures TreeOk(fac.nodes, index) && Represents(fac.nodes, index, t)
    {
    }
  }

  /** An inode is what the tree says of its path. */
  lemma Arrived(nodes: seq<Node>, index: map<Path, nat>, t: Fs, i: nat)
    requires TreeOk(nodes, index) && Represents(nodes, index, t) && 0 < i < |nodes|
    ensures nodes[i].path in t && EntryOk(nodes[i], t[nodes[i].path])
  {
    hide EntryOk, DirNames, NlinkOk;
    assert nodes[i].path in index && index[nodes[i].path] == i;
  }

  lemma ReachesRoot(t: Fs)
    requires [] in t
    ensures Reaches(t, [])
  {
  }

  lemma ReachesChild(t: Fs, path: Path, name: Name)
    requires Reaches(t, path)
    ensures path in t && (Reaches(t, path + [name]) <==> path + [name] in t && IsIntact(t[path]))
  {
    hide IsIntact;
    var p := path + [name];
    assert p[..|path|] == path;
    assert forall k :: 0 <= k < |path| ==> p[..k] == path[..k];
    assert Reaches(t, p) ==> IntactIn(t, p[..|path|]);
  }

  /** Every prefix of a path that is reached is reached. */
  lemma ReachesPrefix(nodes: seq<Node>, index: map<Path, nat>, t: Fs, path: Path, k: nat)
    requires TreeOk(nodes, index) && Represents(nodes, index, t) && Reaches(t, path) && k <= |path|
    ensures Reaches(t, path[..k])
  {
    hide EntryOk, DirNames, NlinkOk, PathsOk, IntactIn;
    PrefixClosed(nodes, index, path, k);
    assert forall j :: 0 <= j < k ==> path[..k][..j] == path[..j];
  }

  /** A path that is reached passes. */
  lemma ReachesPasses(t: Fs, path: Path)
    requires Reaches(t, path)
    ensures Passes(t, path) && !Strays(t, path)
  {
    hide IntactIn;
    assert Passes(t, path);
    OneWay(t, path, |path|);
  }

  lemma RootIntact(nodes: seq<Node>, index: map<Path, nat>, t: Fs)
    requires TreeOk(nodes, index) && Represents(nodes, index, t)
    ensures [] in t && IsIntact(t[[]])
  {
    hide DirNames, NlinkOk;
    assert EntryOk(nodes[index[[]]], t[[]]);
  }

  /** What reaching a prefix says of the way to the path. */
  lemma ReachedTo(t: Fs, path: Path, i: nat)
    requires i < |path| && Reaches(t, path[..i])
    ensures path[..i] in t && IntactTo(t, path, i)
    ensures IsIntact(t[path[..i]]) ==>
              IntactTo(t, path, i + 1) && (path[..i + 1] in t ==> Reaches(t, path[..i + 1]))
  {
    hide IsIntact;
    assert forall j :: 0 <= j < i ==> path[..i][..j] == path[..j];
    if IsIntact(t[path[..i]]) {
      var q := path[..i + 1];
      forall j | 0 <= j < |q|
        ensures IntactIn(t, q[..j])
      {
        assert q[..j] == path[..j];
        assert j < i ==> IntactIn(t, path[..i][..j]);
      }
    }
  }

  /** Where a walk ends before its path does. */
  lemma WalkEnds(nodes: seq<Node>, index: map<Path, nat>, t: Fs, path: Path, i: nat)
    requires TreeOk(nodes, index) && Represents(nodes, index, t) && i < |path|
    requires Reaches(t, path[..i]) && !Reaches(t, path[..i + 1])
    ensures !Reaches(t, path)
    ensures path[..i] in t && (Strays(t, path) <==> IsDirEntry(t[path[..i]]) && !IsIntact(t[path[..i]]))
  {
    hide IsIntact, IsDirEntry, TreeOk, Represents, Reaches, IntactTo;
    RootIntact(nodes, index, t);
    if Reaches(t, path) {
      ReachesPrefix(nodes, index, t, path, i + 1);
    }
    ReachedTo(t, path, i);
    if IsIntact(t[path[..i]]) {
      NothingBelow(nodes, index, t, path, i);
    } else {
      OneWay(t, path, i);
      assert Obstacle(t, path, i);
    }
  }

  lemma NothingBelow(nodes: seq<Node>, index: map<Path, nat>, t: Fs, path: Path, i: nat)
    requires TreeOk(nodes, index) && Represents(nodes, index, t) && i < |path|
    requires IntactTo(t, path, i + 1) && path[..i + 1] !in t
    ensures !Strays(t, path)
  {
    hide IsIntact, IsDirEntry, TreeOk, Represents;
    forall k | i < k < |path|
      ensures path[..k] !in t
    {
      assert path[..k][..i + 1] == path[..i + 1];
      BelowMissing(nodes, index, t, path[..k], i + 1);
    }
  }

  lemma BelowMissing(nodes: seq<Node>, index: map<Path, nat>, t: Fs, path: Path, k: nat)
    requires TreeOk(nodes, index) && Represents(nodes, index, t) && k <= |path| && path[..k] !in t
    ensures path !in t
  {
    hide EntryOk, DirNames, NlinkOk;
    if path in t {
      PrefixClosed(nodes, index, path, k);
    }
  }

  /** Inode `i` can be read; whether a directory's records lie behind the archive can be told from its dinode. */
  predicate CanRead(blocks: seq<Block>, nodes: seq<Node>, i: nat, org: nat)
    requires i < |nodes|
  {
    && MapReadable(blocks, nodes[i]) && OnDisk(blocks, nodes, i)
    && (nodes[i].intact ==> DirReadableAt(blocks, nodes[i]))
    && (i > 0 && nodes[i].d.fmt == DIR ==> (nodes[i].intact <==> OwnRecords(nodes[i].d, org)))
  }

  lemma CanReadDir(io: FsIO, dir: Inode, n: Node)
    requires MapReadable(io.blocks, n) && DirReadableAt(io.blocks, n)
    requires n == NodeOf(dir, n.path)
    ensures Readable(io, dir)
  {
  }

  lemma ImageReadable(img: seq<Block>, tar: seq<Block>, v: Vol, nodes: seq<Node>, index: map<Path, nat>,
                      t: Fs, dsize: nat)
    requires IsImage(img, tar, v, nodes, index, t, dsize)
    ensures forall i :: 0 <= i < |nodes| ==> CanRead(img, nodes, i, |tar|)
    ensures |nodes| > ROOT_INO && Table(nodes)[0] == |tar| && nodes[0].path == []
  {
    forall i | 0 <= i < |nodes|
      ensures CanRead(img, nodes, i, |tar|)
    {
      NodeReadable(v, img, nodes, i);
    }
    BulkBoundary(v, nodes);
  }

  /** FsReader::create: the last block must be a superblock; inode 0 and the root are read through it. */
  method Open(img: seq<Block>, ghost tar: seq<Block>, ghost v: Vol, ghost nodes: seq<Node>,
              ghost index: map<Path, nat>, ghost t: Fs, ghost dsize: nat) returns (r: FsReader?)
    requires HasSuper(img) ==> IsImage(img, tar, v, nodes, index, t, dsize)
    ensures r == null <==> !HasSuper(img)
    ensures r != null ==> fresh(r) && r.io.blocks == img && r.io.blks == |img| && SuperBlk(r.sb) == img[|img| - 1]
    ensures r != null ==> r.fac.nodes == nodes && r.Ok(index, t)
  {
    hide SpaceOk, VolOk, Synced, TreeOk, Represents, CanRead;
    if !HasSuper(img) {
      return null;
    }
    var sb := img[|img| - 1].sb;
    var io := new FsIO(img, sb);
    ImageReadable(img, tar, v, nodes, index, t, dsize);
    assert CanRead(img, nodes, 0, |tar|) && CanRead(img, nodes, ROOT_INO, |tar|);
    ReadParts(img, nodes, 0, |tar|);
    ReadParts(img, nodes, ROOT_INO, |tar|);
    var dirty: bool := *;
    var fac := new InodeFactory.Load(io, sb.free, dirty, nodes);
    var root := fac.GetInode(io, ROOT_INO, ROOT_INO, dirty);
    r := new FsReader(io, sb, fac, root);
  }

  lemma ReadParts(img: seq<Block>, nodes: seq<Node>, i: nat, org: nat)
    requires i < |nodes| && CanRead(img, nodes, i, org)
    ensures MapReadable(img, nodes[i]) && OnDisk(img, nodes, i)
  {
  }

  /** detachtarfs: the original length is the file size minus what the superblock says was added. */
  method Detach(img: seq<Block>, ghost tar: seq<Block>, ghost v: Vol, ghost nodes: seq<Node>,
                ghost index: map<Path, nat>, ghost t: Fs, ghost dsize: nat) returns (r: Option<seq<Block>>)
    requires HasSuper(img) ==> IsImage(img, tar, v, nodes, index, t, dsize)
    ensures r == if HasSuper(img) then Some(tar) else None
  {
    hide SpaceOk, VolOk, Synced, TreeOk, Represents, CanRead;
    var reader := Open(img, tar, v, nodes, index, t, dsize);
    if reader == null {
      return None;
    }
    var orgblk := reader.io.blks - reader.sb.size;
    assert img[..|tar|] == v.blocks[..|tar|] == tar;
    r := Some(img[..orgblk]);
  }
}
