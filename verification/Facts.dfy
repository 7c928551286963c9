/** What every image the builder can reach satisfies, across allocators, extent maps, directories and the tree. */
module Facts {
  import opened Meta
  import opened TarFile
  import opened Extents
  import opened ExtMap
  import opened Volume
  import opened Nodes
  import opened Tree
  import opened Maker
  import opened Factory
  import R = Records

  // ----- conservation

  /** Block `b` serves as `o` says, read off the inodes and the free lists rather than the owner tags. */
  predicate Serves(v: Vol, nodes: seq<Node>, b: nat, o: Owner)
    requires |v.pools| == 3 && |nodes| > 0
  {
    match o
    case Tar => b < v.org
    case Free(m) => m < 3 && v.pools[m].lo <= b < v.pools[m].hi
    case Dino(i) => i < |nodes| && i < |Table(nodes)| && Table(nodes)[i] == b
    case DirData(i, k) =>
      i < |nodes| && nodes[i].d.fmt == DIR && k < |Flat(nodes[i].exts)| && Flat(nodes[i].exts)[k] == b >= v.org
    case Chain(i, k) => i < |nodes| && k < |nodes[i].chain| && nodes[i].chain[k] == b
  }

  /** Block `b` was used by an inode that an entry turned from a directory into something else. */
  predicate Lost(v: Vol, nodes: seq<Node>, b: nat) {
    && b < |v.owner| && (v.owner[b].DirData? || v.owner[b].Chain?) && v.owner[b].ino < |nodes|
    && MadeDir(nodes[v.owner[b].ino]) && !nodes[v.owner[b].ino].intact
  }

  lemma ServesIsOwner(v: Vol, nodes: seq<Node>, b: nat, o: Owner)
    requires VolOk(v, nodes) && b < |v.blocks|
    ensures Serves(v, nodes, b, o) <==> v.owner[b] == o && !Lost(v, nodes, b)
  {
    hide AllNodesOk, TableShape, ExtRep, Tiled, R.Encodes, Increasing, Flat;
    VolShape(v, nodes);
    match o
    case Tar =>
    case Free(m) =>
      if m < 3 { assert PoolOk(v, m); }
    case Dino(i) =>
    case DirData(i, k) =>
      if i < |nodes| {
        NodeAt(v, nodes, i);
        if nodes[i].d.fmt == DIR && !nodes[i].intact {
          FlatInArchive(nodes[i].exts, v.org);
        } else if nodes[i].intact && k < |Flat(nodes[i].exts)| && Flat(nodes[i].exts)[k] == b {
          assert v.owner[b] == DirData(i, k);
        }
      }
    case Chain(i, k) =>
      if i < |nodes| {
        NodeAt(v, nodes, i);
        if !nodes[i].intact && MadeDir(nodes[i]) {
          NoChain(v.blocks, nodes[i].d, nodes[i].exts, nodes[i].chain);
        }
      }
  }

  /**
    * No block has two uses, and every block has one unless it was lost by an entry that turned a directory into
    * something else; such a block is none of the archive's.
    */
  lemma Conservation(v: Vol, nodes: seq<Node>, b: nat) returns (o: Owner)
    requires VolOk(v, nodes) && b < |v.blocks|
    ensures Serves(v, nodes, b, o) <==> !Lost(v, nodes, b)
    ensures forall o' :: Serves(v, nodes, b, o') ==> o' == o
    ensures o == Tar <==> b < v.org
  {
    o := v.owner[b];
    ServesIsOwner(v, nodes, b, o);
    forall o' | Serves(v, nodes, b, o')
      ensures o' == o
    {
      ServesIsOwner(v, nodes, b, o');
    }
  }

  // ----- merging is sound in every reachable state

  /** The next directory block can only be adjacent to the last extent of any directory. */
  lemma DirMergeSound(v: Vol, nodes: seq<Node>, i: nat)
    requires VolOk(v, nodes) && i < |nodes| && nodes[i].intact
    ensures OnlyLastAdjacent(nodes[i].exts, NextIssue(v, DIRMGR))
    ensures var de := Ext(nodes[i].d.blocks, NextIssue(v, DIRMGR), 1);
            Maps(InsExt(nodes[i].exts, de), Flat(nodes[i].exts) + Blocks(de))
  {
    NodeAt(v, nodes, i);
    IssuedBelow(v, DIRMGR);
    var flat := Flat(nodes[i].exts);
    forall k | 0 <= k < |flat|
      ensures flat[k] < NextIssue(v, DIRMGR)
    {
      assert v.owner[flat[k]] == DirData(i, k);
    }
    AboveOnlyLast(nodes[i].exts, NextIssue(v, DIRMGR));
    MergeSoundExactly(nodes[i].exts, Ext(nodes[i].d.blocks, NextIssue(v, DIRMGR), 1));
  }

  /** So it is for the next bulk of dinode blocks and inode 0. */
  lemma TableMergeSound(v: Vol, nodes: seq<Node>)
    requires VolOk(v, nodes) && Head(v.pools[DINODEMGR]) == TARBLK_NONE
    ensures OnlyLastAdjacent(nodes[0].exts, NextIssue(v, DINODEMGR))
    ensures var de := Ext(|nodes|, NextIssue(v, DINODEMGR), BULKS);
            Maps(InsExt(nodes[0].exts, de), Table(nodes) + Blocks(de))
  {
    NodeAt(v, nodes, 0);
    BulkBoundary(v, nodes);
    IssuedBelow(v, DINODEMGR);
    HeadIsNext(v, DINODEMGR);
    TableBelow(v, Table(nodes), |nodes|, NextIssue(v, DINODEMGR));
    AboveOnlyLast(nodes[0].exts, NextIssue(v, DINODEMGR));
    MergeSoundExactly(nodes[0].exts, Ext(|nodes|, NextIssue(v, DINODEMGR), BULKS));
  }

  // ----- inode numbers and indirect chains

  /** getBlock(k) on inode 0 is the block of inode k, which holds its dinode unless it is still in memory. */
  lemma InodeNumbering(v: Vol, nodes: seq<Node>, open: set<nat>, k: nat)
    requires VolOk(v, nodes) && Synced(v, nodes, open) && k < |nodes|
    ensures LookupExt(nodes[0].exts, k).Some?
    ensures var b := LookupExt(nodes[0].exts, k).value;
            && b < |v.blocks| && v.owner[b] == Dino(k)
            && (k !in open ==> v.blocks[b] == DinodeBlk(nodes[k].d))
    ensures LookupExt(nodes[0].exts, FREE_INO) == Some(v.org)
    ensures LookupExt(nodes[0].exts, ROOT_INO) == Some(v.org + 1)
  {
    NodeAt(v, nodes, 0);
    TiledMaps(nodes[0].exts);
    VolReadable(v, nodes, k);
    BulkBoundary(v, nodes);
  }

  /** Chain block k is full and linked to the next one, or the last, which holds at least one extent. */
  predicate ChainLink(blocks: seq<Block>, chain: seq<nat>, k: nat)
    requires k < |chain|
  {
    && chain[k] < |blocks| && blocks[chain[k]].IndBlk?
    && var ie := blocks[chain[k]].ie;
       if k + 1 < |chain| then ie.num == 20 && ie.next == chain[k + 1]
       else 0 < ie.num <= 20 && ie.next == TARBLK_NONE
  }

  lemma LinkOf(blocks: seq<Block>, d: Dinode, exts: seq<Ext>, chain: seq<nat>, k: nat)
    requires ExtRep(blocks, d, exts, chain) && k < |chain|
    ensures ChainLink(blocks, chain, k)
  {
    ChainCount(|exts|);
    ChainBaseBound(|exts|, k);
    assert ChainBlk(blocks, exts, chain, k);
    assert k + 1 < |chain| ==> ChainBase(k + 1) < |exts|;
  }

  /** An inode's indirect blocks are distinct, all but the last are full, and di_nExtents counts them. */
  lemma ChainShape(v: Vol, nodes: seq<Node>, i: nat)
    requires VolOk(v, nodes) && i < |nodes|
    ensures var n := nodes[i];
            && (forall j, k :: 0 <= j < k < |n.chain| ==> n.chain[j] != n.chain[k])
            && (n.d.nExtents > 17 ==> n.d.nExtents == 17 + |n.chain|)
            && (n.d.nExtents <= 17 ==> n.chain == [] && n.d.nExtents == |n.exts|)
            && (forall k :: 0 <= k < |n.chain| ==> ChainLink(v.blocks, n.chain, k))
  {
    NodeAt(v, nodes, i);
    var n := nodes[i];
    ChainCount(|n.exts|);
    if |n.exts| <= MAX_DINODE_DIRECT { NoChain(v.blocks, n.d, n.exts, n.chain); }
    hide VolOk, DirOk, Tiled, ChainLink;
    forall j, k | 0 <= j < k < |n.chain|
      ensures n.chain[j] != n.chain[k]
    {
      assert v.owner[n.chain[j]] == Chain(i, j) && v.owner[n.chain[k]] == Chain(i, k);
    }
    forall k | 0 <= k < |n.chain|
      ensures ChainLink(v.blocks, n.chain, k)
    {
      LinkOf(v.blocks, n.d, n.exts, n.chain, k);
    }
  }

  // ----- the finished image

  /** The superblock of a finished image. */
  function SuperOf(img: seq<Block>): SBlock {
    if img != [] && img[|img| - 1].SuperBlk? then img[|img| - 1].sb else SBlock(0, 0, 0, 0, 0, 0, 0, 0, 0)
  }

  function HeadOf(sb: SBlock, m: nat): nat {
    if m == DIRMGR then sb.flistDirdata else if m == IEXMGR then sb.flistIexdata else sb.flistDinode
  }

  lemma ImageParts(img: seq<Block>, tar: seq<Block>, v: Vol, nodes: seq<Node>, index: map<Path, nat>, t: Fs, dsize: nat)
    requires IsImage(img, tar, v, nodes, index, t, dsize)
    ensures VolOk(v, nodes) && Synced(v, nodes, {}) && |nodes| > ROOT_INO && |nodes| == |t| + 1
    ensures v.blocks <= img && |img| == |v.blocks| + 1 && v.org == |tar| <= |v.blocks|
    ensures SuperOk(SuperOf(img), v, |nodes|, dsize)
    ensures SpaceOk(v)
  {
    hide Synced, NodeOk, TableOk, TagsOk, Represents, DirNames, NlinkOk, SpaceOk, SuperOk;
  }

  lemma WholeBulks(v: Vol)
    requires SpaceOk(v)
    ensures (|v.blocks| + 1 - v.org) % 256 == 1
  {
  }

  /** The superblock's summary: inodes, size and where inode 0 and the root are. */
  lemma Accounting(img: seq<Block>, tar: seq<Block>, v: Vol, nodes: seq<Node>, index: map<Path, nat>, t: Fs, dsize: nat)
    requires IsImage(img, tar, v, nodes, index, t, dsize)
    ensures var sb := SuperOf(img);
            && sb.inodes == |t| + 1 && sb.dsize == dsize
            && sb.size == |img| - |tar| && sb.size % 256 == 1
            && sb.free == |tar| && sb.root == |tar| + 1
            && LookupExt(nodes[0].exts, 0) == Some(sb.free) && LookupExt(nodes[0].exts, 1) == Some(sb.root)
  {
    hide IsImage, VolOk, Synced, SpaceOk, SuperOf, LookupExt;
    ImageParts(img, tar, v, nodes, index, t, dsize);
    WholeBulks(v);
    InodeNumbering(v, nodes, {}, 0);
  }

  /** The three heads in the superblock still lead through exactly the unissued blocks of the final image. */
  lemma FinalFreeLists(img: seq<Block>, tar: seq<Block>, v: Vol, nodes: seq<Node>, index: map<Path, nat>, t: Fs,
                       dsize: nat, m: nat)
    requires m < 3 && IsImage(img, tar, v, nodes, index, t, dsize)
    ensures |v.pools| == 3 && v.pools[m].lo <= v.pools[m].hi
    ensures FollowFree(img, HeadOf(SuperOf(img), m), |img|)
         == seq(v.pools[m].hi - v.pools[m].lo, i requires 0 <= i => v.pools[m].lo + i)
    ensures forall b: nat :: b < |v.blocks| ==>
              (v.pools[m].lo <= b < v.pools[m].hi <==> Serves(v, nodes, b, Free(m)))
  {
    hide IsImage, VolOk, Synced, SpaceOk, SuperOf, FollowFree;
    ImageParts(img, tar, v, nodes, index, t, dsize);
    HeadIsNext(v, m);
    FreeListWalk(v, img, m, v.pools[m].lo, |img|);
  }

  // ----- the tree

  /** The inode is an intact directory, with its records. */
  predicate IsDirNode(n: Node) {
    n.intact && MadeDir(n)
  }

  /** "." is the directory itself and ".." its parent; the root is its own parent. */
  lemma DotNames(nodes: seq<Node>, index: map<Path, nat>, i: nat)
    requires TreeOk(nodes, index) && 0 < i < |nodes| && MadeDir(nodes[i])
    ensures R.Lookup(nodes[i].recs, R.DOT) == Some(i)
    ensures nodes[i].path == [] ==> i == ROOT_INO && R.Lookup(nodes[i].recs, R.DOTDOT) == Some(ROOT_INO)
    ensures nodes[i].path != [] ==>
              exists d :: 0 < d < |nodes| && MadeDir(nodes[d]) && nodes[d].path == ParentPath(nodes[i].path)
                          && R.Lookup(nodes[i].recs, R.DOTDOT) == Some(d)
  {
    assert DirNames(index, i, nodes[i]);
    assert index[nodes[i].path] == i;
    var q := ParentPath(nodes[i].path);
    assert q in index;
    assert nodes[index[q]].path == q;
    assert R.Lookup(nodes[i].recs, R.DOT) == Child(index, nodes[i].path, i, R.DOT);
    assert R.Lookup(nodes[i].recs, R.DOTDOT) == Child(index, nodes[i].path, i, R.DOTDOT);
  }

  /** `name` in directory `d` stands for inode `j`. */
  ghost predicate Names(nodes: seq<Node>, d: nat, name: Name, j: nat) {
    && 0 < d < |nodes| && IsDirNode(nodes[d]) && name != R.DOT && name != R.DOTDOT
    && R.Lookup(nodes[d].recs, name) == Some(j)
  }

  lemma NamesPath(nodes: seq<Node>, index: map<Path, nat>, d: nat, name: Name, j: nat)
    requires TreeOk(nodes, index) && 0 < d < |nodes| && IsDirNode(nodes[d]) && name != R.DOT && name != R.DOTDOT
    requires 0 < j < |nodes|
    ensures Names(nodes, d, name, j) <==> nodes[d].path + [name] == nodes[j].path
  {
    hide R.Lookup, NlinkOk;
    var p := nodes[d].path + [name];
    assert DirNames(index, d, nodes[d]);
    assert R.Lookup(nodes[d].recs, name) == Child(index, nodes[d].path, d, name);
    assert index[nodes[j].path] == j;
  }

  /**
    * Every inode but the root is named by exactly one entry of one directory, its parent; by none exactly if
    * its parent is no intact directory any more.
    */
  lemma OneName(nodes: seq<Node>, index: map<Path, nat>, j: nat) returns (d: nat, name: Name)
    requires TreeOk(nodes, index) && ROOT_INO < j < |nodes|
    ensures 0 < d < |nodes| && nodes[j].path == nodes[d].path + [name]
    ensures Names(nodes, d, name, j) <==> nodes[d].intact
    ensures forall d': nat, name' :: Names(nodes, d', name', j) ==> d' == d && name' == name
  {
    d, name := ParentDir(nodes, index, j);
    if nodes[d].intact {
      NamesPath(nodes, index, d, name, j);
    }
    forall d': nat, name' | Names(nodes, d', name', j)
      ensures d' == d && name' == name
    {
      NamesPath(nodes, index, d', name', j);
      ParentOfChild(nodes[d'].path, name');
      SamePath(nodes, index, d, d');
    }
  }

  lemma ParentDir(nodes: seq<Node>, index: map<Path, nat>, j: nat) returns (d: nat, name: Name)
    requires TreeOk(nodes, index) && ROOT_INO < j < |nodes|
    ensures 0 < d < |nodes| && MadeDir(nodes[d]) && name != R.DOT && name != R.DOTDOT
    ensures nodes[j].path == nodes[d].path + [name] && nodes[d].path == ParentPath(nodes[j].path)
  {
    hide R.Lookup, DirNames, NlinkOk, MadeDir;
    var p := nodes[j].path;
    assert index[p] == j;
    d, name := index[ParentPath(p)], p[|p| - 1];
    assert nodes[d].path == ParentPath(p);
  }

  lemma SamePath(nodes: seq<Node>, index: map<Path, nat>, d: nat, d': nat)
    requires TreeOk(nodes, index) && 0 < d < |nodes| && 0 < d' < |nodes| && nodes[d].path == nodes[d'].path
    ensures d == d'
  {
    assert index[nodes[d].path] == d;
  }

  /** The inode reached from inode `i` by following the names of `path` through directory records. */
  function Resolve(nodes: seq<Node>, i: nat, path: Path): Option<nat>
    decreases |path|
  {
    if path == [] then Some(i)
    else if i >= |nodes| || !IsDirNode(nodes[i]) then None
    else
      var j := R.Lookup(nodes[i].recs, path[0]);
      if j.None? then None else Resolve(nodes, j.value, path[1..])
  }

  predicate NoDots(path: Path) {
    R.DOT !in path && R.DOTDOT !in path
  }

  predicate DirNodeAt(nodes: seq<Node>, index: map<Path, nat>, p: Path) {
    p in index && index[p] < |nodes| && IsDirNode(nodes[index[p]])
  }

  /** From component `from` on, everything on the way to `p` is a directory. */
  predicate DirsFrom(nodes: seq<Node>, index: map<Path, nat>, p: Path, from: nat) {
    forall k :: from <= k < |p| ==> DirNodeAt(nodes, index, p[..k])
  }

  /** One step: a name leads to the inode of the path it extends to, if there is one. */
  lemma ResolveStep(nodes: seq<Node>, index: map<Path, nat>, i: nat, name: Name)
    requires TreeOk(nodes, index) && 0 < i < |nodes| && MadeDir(nodes[i]) && name != R.DOT && name != R.DOTDOT
    ensures var q := nodes[i].path + [name];
            && R.Lookup(nodes[i].recs, name) == (if q in index then Some(index[q]) else None)
            && (q in index ==> 0 < index[q] < |nodes| && nodes[index[q]].path == q)
  {
    hide R.Lookup, NlinkOk;
    assert DirNames(index, i, nodes[i]);
    assert R.Lookup(nodes[i].recs, name) == Child(index, nodes[i].path, i, name);
  }

  lemma KnownAt(nodes: seq<Node>, index: map<Path, nat>, i: nat)
    requires PathsOk(nodes, index) && 0 < i < |nodes|
    ensures nodes[i].path in index && index[nodes[i].path] == i
  {
  }

  /** What lies behind directory `i` lies behind the first component. */
  lemma OnTheWay(nodes: seq<Node>, index: map<Path, nat>, i: nat, path: Path)
    requires TreeOk(nodes, index) && 0 < i < |nodes| && path != []
    ensures nodes[i].path in index && index[nodes[i].path] == i
    ensures var p, q, n := nodes[i].path + path, nodes[i].path + [path[0]], |nodes[i].path|;
            && q + path[1..] == p
            && (p in index ==> q in index)
            && (DirsFrom(nodes, index, p, n) <==> IsDirNode(nodes[i]) && DirsFrom(nodes, index, p, n + 1))
  {
    hide DirNames, NlinkOk, PathsOk, R.Lookup, IsDirNode;
    KnownAt(nodes, index, i);
    var p, q, n := nodes[i].path + path, nodes[i].path + [path[0]], |nodes[i].path|;
    assert p[..n] == nodes[i].path && p[..|q|] == q;
    assert DirNodeAt(nodes, index, p[..n]) <==> IsDirNode(nodes[i]);
    if p in index {
      PrefixClosed(nodes, index, p, |q|);
    }
  }

  lemma {:induction false} ResolveFrom(nodes: seq<Node>, index: map<Path, nat>, i: nat, path: Path)
    requires TreeOk(nodes, index) && 0 < i < |nodes| && NoDots(path)
    ensures var p := nodes[i].path + path;
            Resolve(nodes, i, path)
            == if p in index && DirsFrom(nodes, index, p, |nodes[i].path|) then Some(index[p]) else None
    decreases |path|
  {
    hide R.Lookup, DirNames, NlinkOk;
    if path == [] {
      assert nodes[i].path + path == nodes[i].path;
      assert index[nodes[i].path] == i;
    } else {
      hide TreeOk, DirsFrom;
      OnTheWay(nodes, index, i, path);
      if IsDirNode(nodes[i]) {
        ResolveStep(nodes, index, i, path[0]);
        var q := nodes[i].path + [path[0]];
        if q in index {
          ResolveFrom(nodes, index, index[q], path[1..]);
        }
      }
    }
  }

  lemma {:induction false} PathNoDots(nodes: seq<Node>, index: map<Path, nat>, p: Path)
    requires PathsOk(nodes, index) && p in index
    ensures NoDots(p)
  {
    forall k | 0 <= k < |p|
      ensures p[k] != R.DOT && p[k] != R.DOTDOT
    {
      PrefixClosed(nodes, index, p, k + 1);
      assert p[..k + 1][k] == p[k];
    }
  }

  /**
    * Every inode but 0 is reached from the root by its own path and by no other, exactly if everything on the way
    * is an intact directory.
    */
  lemma Reachable(nodes: seq<Node>, index: map<Path, nat>, j: nat)
    requires TreeOk(nodes, index) && 0 < j < |nodes|
    ensures NoDots(nodes[j].path)
    ensures forall path :: NoDots(path) ==>
              (Resolve(nodes, ROOT_INO, path) == Some(j) <==> path == nodes[j].path && DirsFrom(nodes, index, path, 0))
  {
    hide DirNames, NlinkOk, Resolve, NoDots, DirsFrom;
    assert index[nodes[j].path] == j;
    PathNoDots(nodes, index, nodes[j].path);
    assert nodes[ROOT_INO].path == [];
    forall path | NoDots(path)
      ensures Resolve(nodes, ROOT_INO, path) == Some(j) <==> path == nodes[j].path && DirsFrom(nodes, index, path, 0)
    {
      ResolveFrom(nodes, index, ROOT_INO, path);
      assert [] + path == path;
    }
  }

  // ----- link counts

  /** The names of the directories made in the directory with path `p`. */
  function SubdirNames(t: Fs, p: Path): set<Name> {
    set q | q in t && q != [] && ParentPath(q) == p && MadeAsDir(t[q]) :: q[|q| - 1]
  }

  lemma SubdirNamesMeans(t: Fs, p: Path, name: Name)
    ensures name in SubdirNames(t, p) <==> p + [name] in t && MadeAsDir(t[p + [name]])
  {
    ParentOfChild(p, name);
    if name in SubdirNames(t, p) {
      var q :| q in t && q != [] && ParentPath(q) == p && MadeAsDir(t[q]) && q[|q| - 1] == name;
      assert q == p + [name];
    }
  }

  function LastName(nodes: seq<Node>, j: nat): Name {
    if j < |nodes| && nodes[j].path != [] then nodes[j].path[|nodes[j].path| - 1] else []
  }

  lemma {:induction false} ImageSize(nodes: seq<Node>, s: set<nat>, names: set<Name>)
    requires forall i, j :: i in s && j in s && LastName(nodes, i) == LastName(nodes, j) ==> i == j
    requires forall j :: j in s ==> LastName(nodes, j) in names
    requires forall name :: name in names ==> exists j :: j in s && LastName(nodes, j) == name
    ensures |s| == |names|
  {
    hide LastName;
    if s == {} {
      assert names == {};
    } else {
      var j :| j in s;
      forall name | name in names - {LastName(nodes, j)}
        ensures exists i :: i in s - {j} && LastName(nodes, i) == name
      {
        var i :| i in s && LastName(nodes, i) == name;
        assert i in s - {j};
      }
      ImageSize(nodes, s - {j}, names - {LastName(nodes, j)});
    }
  }

  lemma SubdirIsNamed(nodes: seq<Node>, index: map<Path, nat>, t: Fs, p: Path, j: nat)
    requires TreeOk(nodes, index) && Represents(nodes, index, t) && j in Subdirs(nodes, p)
    ensures j < |nodes| && nodes[j].path == p + [LastName(nodes, j)]
    ensures nodes[j].path in index && index[nodes[j].path] == j
    ensures LastName(nodes, j) in SubdirNames(t, p)
  {
    hide R.Lookup, DirNames, NlinkOk, SubdirNames, Describes, PathsOk;
    KnownAt(nodes, index, j);
    NotRoot(nodes, index, j);
    SubdirNamesMeans(t, p, LastName(nodes, j));
  }

  lemma NotRoot(nodes: seq<Node>, index: map<Path, nat>, j: nat)
    requires PathsOk(nodes, index) && ROOT_INO < j < |nodes|
    ensures nodes[j].path != []
  {
    assert index[nodes[j].path] == j;
  }

  lemma NameIsSubdir(nodes: seq<Node>, index: map<Path, nat>, t: Fs, p: Path, name: Name) returns (j: nat)
    requires TreeOk(nodes, index) && Represents(nodes, index, t) && name in SubdirNames(t, p)
    ensures j in Subdirs(nodes, p) && LastName(nodes, j) == name
  {
    hide R.Lookup, DirNames, NlinkOk, SubdirNames, Describes;
    SubdirNamesMeans(t, p, name);
    ParentOfChild(p, name);
    j := index[p + [name]];
    assert nodes[j].path == p + [name];
    assert MadeDir(nodes[j]) <==> MadeAsDir(t[p + [name]]);
  }

  /** Inodes made as directories in a directory, and their names, are equally many. */
  lemma SubdirsNamed(nodes: seq<Node>, index: map<Path, nat>, t: Fs, p: Path)
    requires TreeOk(nodes, index) && Represents(nodes, index, t)
    ensures |Subdirs(nodes, p)| == |SubdirNames(t, p)|
  {
    hide TreeOk, Represents, SubdirNames, LastName, Subdirs;
    forall j | j in Subdirs(nodes, p)
      ensures j < |nodes| && nodes[j].path == p + [LastName(nodes, j)] && nodes[j].path in index
              && index[nodes[j].path] == j && LastName(nodes, j) in SubdirNames(t, p)
    {
      SubdirIsNamed(nodes, index, t, p, j);
    }
    forall name | name in SubdirNames(t, p)
      ensures exists j :: j in Subdirs(nodes, p) && LastName(nodes, j) == name
    {
      var j := NameIsSubdir(nodes, index, t, p, name);
    }
    ImageSize(nodes, Subdirs(nodes, p), SubdirNames(t, p));
  }

  /** di_nlink of the inode at a path, read off the tree. */
  lemma LinkCount(nodes: seq<Node>, index: map<Path, nat>, t: Fs, i: nat)
    requires TreeOk(nodes, index) && Represents(nodes, index, t) && 0 < i < |nodes|
    ensures nodes[i].path in t
    ensures nodes[i].d.nlink == if MadeAsDir(t[nodes[i].path]) then 2 + |SubdirNames(t, nodes[i].path)| else 1
  {
    hide R.Lookup, DirNames, SubdirNames, Subdirs, Describes;
    assert NlinkOk(nodes, i);
    assert nodes[i].path in index && index[nodes[i].path] == i;
    assert EntryOk(nodes[i], t[nodes[i].path]);
    SubdirsNamed(nodes, index, t, nodes[i].path);
  }

  // ----- data

  lemma OneExt(e: Ext, off: nat)
    requires e.off == 0 && e.nblks > 0
    ensures LookupExt([e], off) == if off < e.nblks then Some(e.blkno + off) else None
  {
    assert [e][..0] == [];
    assert FirstHit([e], off) == if Hits(e, off) then 0 else 1;
  }

  /** Block `off` of a regular file is block `off` behind its header, as long as it holds bytes of the file. */
  lemma DataMapping(n: Node, e: Entry, f: File, off: nat)
    requires f.Valid() && f.Fmt() == REG && e.Given? && e.data == Some(f) && EntryOk(n, e)
    ensures LookupExt(n.exts, off) == if 512 * off < f.FileSize() then Some(f.blknoHeader + 1 + off) else None
  {
    hide LookupExt, Strtoull8;
    BlocksLeast(f.FileSize(), off);
    if f.NumExtents() == 1 {
      OneExt(f.addr, off);
    } else {
      NoExt(off);
    }
  }

  lemma NoExt(off: nat)
    ensures LookupExt([], off) == None
  {
  }

  // ----- setFile and kinds

  /** The inode is in good order: it can be read, and a directory's records name what the paths say. */
  ghost predicate NodeGood(v: Vol, index: map<Path, nat>, i: nat, n: Node) {
    InOrder(v, i, n) && (MadeDir(n) ==> DirNames(index, i, n))
  }

  /**
    * setFile on an inode that is already there: the inode is in good order afterwards exactly when the entry is
    * no directory or the inode is an intact one.
    */
  lemma SetFileExactly(v: Vol, nodes: seq<Node>, index: map<Path, nat>, i: nat, f: File)
    requires VolOk(v, nodes) && TreeOk(nodes, index) && 0 < i < |nodes| && f.Valid() && f.Within(v.org)
    requires |nodes[i].d.direct| == MAX_DINODE_DIRECT
    ensures NodeGood(v, index, i, FileNode(nodes[i], f)) <==> (f.Fmt() == DIR ==> nodes[i].intact)
  {
    NodeAt(v, nodes, i);
    FileFmt(nodes[i].d, f);
    hide VolOk, NodeOk, NlinkOk, PathsOk, R.Lookup, SpaceOk, InOrder;
    VolShape(v, nodes);
    FileNodeOk(v, i, nodes[i], f);
    OrderIsIntact(v, i, FileNode(nodes[i], f));
    assert MadeDir(nodes[i]) ==> DirNames(index, i, nodes[i]);
  }

  /** What a directory that was a file would read and write as records is the data of that file. */
  lemma PromotedIsArchive(n: Node, e: Entry, f: File, org: nat, off: nat)
    requires f.Valid() && f.Within(org) && f.Fmt() == REG && 512 * off < f.FileSize()
    requires e.Given? && IsDirFile(e.f) && e.data == Some(f) && EntryOk(n, e)
    ensures n.d.fmt == DIR && n.d.size == f.FileSize()
    ensures LookupExt(n.exts, off) == Some(f.blknoHeader + 1 + off) && f.blknoHeader + 1 + off < org
  {
    DataMapping(n, e, f, off);
    hide LookupExt, Strtoull8;
    BlocksLeast(f.FileSize(), off);
  }

  /** Every inode of a finished image is in order exactly when every directory of its tree is intact. */
  lemma ImageInOrder(img: seq<Block>, tar: seq<Block>, v: Vol, nodes: seq<Node>, index: map<Path, nat>, t: Fs,
                     dsize: nat)
    requires IsImage(img, tar, v, nodes, index, t, dsize)
    ensures (forall i :: 0 < i < |nodes| ==> InOrder(v, i, nodes[i])) <==> DirsIntact(t)
  {
    hide InOrder, NodeOk, SpaceOk, TableOk, TagsOk, Synced, SuperOk, EntryOk, DirNames, NlinkOk, IsIntact, IsDirEntry;
    forall i | 0 < i < |nodes|
      ensures nodes[i].path in t
      ensures InOrder(v, i, nodes[i]) <==> DirIntact(t[nodes[i].path])
    {
      NodeAt(v, nodes, i);
      OrderIsIntact(v, i, nodes[i]);
      assert nodes[i].path in index && index[nodes[i].path] == i;
      KindOf(nodes[i], t[nodes[i].path]);
    }
    forall p | p in t
      ensures 0 < index[p] < |nodes| && nodes[index[p]].path == p
    {
      assert p in index;
    }
  }

  /** The other way round the data blocks of the directory are lost. */
  lemma DemotionLoses(v: Vol, nodes: seq<Node>, i: nat, f: File) returns (b: nat)
    requires VolOk(v, nodes) && 0 < i < |nodes| && nodes[i].intact && f.Valid() && f.Fmt() != DIR
    requires |nodes[i].d.direct| == MAX_DINODE_DIRECT
    ensures b < |v.blocks| && Serves(v, nodes, b, DirData(i, 0))
    ensures Lost(v, nodes[i := FileNode(nodes[i], f)], b)
  {
    NodeAt(v, nodes, i);
    var flat := Flat(nodes[i].exts);
    assert R.Fits(nodes[i].recs, 0) && R.Stored(Bufs(v.blocks, flat), nodes[i].recs, 0);
    b := flat[0];
    assert v.owner[b] == DirData(i, 0);
  }
}
