/** End to end: an archive is given its metadata, and the image is read, detached or built again. */
module RoundTrip {
  import opened Meta
  import opened Parser
  import ExtMap
  import opened Extents
  import opened Volume
  import opened Nodes
  import opened Tree
  import opened Maker
  import opened Reader
  import opened Mkfs
  import opened Meaning
  import opened Facts
  import opened Readdir
  import Ustar
  import R = Records

  /** The inode at `path` of an open image, and where its block `off` is. */
  method Locate(r: FsReader, path: Path, off: nat, ghost index: map<Path, nat>, ghost t: Fs)
    returns (found: Option<Dinode>, blkno: Option<nat>, astray: bool, ghost n: Node)
    requires r.Ok(index, t) && forall c :: c in path ==> c != R.DOT && c != R.DOTDOT
    ensures (found.Some? <==> Reaches(t, path)) && (astray <==> Strays(t, path))
    ensures found.Some? ==> found.value == n.d && EntryOk(n, t[path]) && blkno == LookupExt(n.exts, off)
    ensures found.Some? ==> n.d.nlink == if MadeAsDir(t[path]) then 2 + |SubdirNames(t, path)| else 1
  {
    hide TreeOk, Represents, EntryOk, MapReadable, LookupExt, Reaches, Strays, SubdirNames;
    found, blkno, n := None, None, r.fac.nodes[0];
    var inode;
    inode, astray := r.Walk(path, index, t);
    if inode != null {
      n := r.fac.nodes[inode.ino];
      assert CanRead(r.io.blocks, r.fac.nodes, inode.ino, r.sb.free);
      MapFollows(r.io.blocks, n);
      LinkCount(r.fac.nodes, index, t, inode.ino);
      found := Some(inode.dinode);
      blkno := inode.GetBlock(r.io, off);
    }
  }

  lemma MapFollows(blocks: seq<Block>, n: Node)
    requires MapReadable(blocks, n)
    ensures ExtMap.ExtRep(blocks, n.d, n.exts, n.chain) && TARBLK_NONE !in n.chain
  {
  }

  lemma SuperLast(img: seq<Block>, tar: seq<Block>, v: Vol, nodes: seq<Node>, index: map<Path, nat>, t: Fs, dsize: nat)
    requires IsImage(img, tar, v, nodes, index, t, dsize)
    ensures tar <= img && HasSuper(img)
  {
    hide VolOk, Synced, TreeOk, Represents, SuperOk;
  }

  /** Reads the dinode at `path` and, from a regular file, block `off`. */
  method ReadPath(img: seq<Block>, path: Path, off: nat, ghost tar: seq<Block>, ghost items: seq<Item>,
                  ghost v: Vol, ghost nodes: seq<Node>, ghost index: map<Path, nat>, ghost dsize: nat)
    returns (found: Option<Dinode>, data: Option<Block>, astray: bool)
    requires IsArchive(tar, items) && forall c :: c in path ==> c != R.DOT && c != R.DOTDOT
    requires IsImage(img, tar, v, nodes, index, Build(FilesOf(items)), dsize)
    ensures (found.Some? <==> Found(items, path)) && (astray <==> AstrayFor(items, path))
    ensures found.Some? ==> Describes(found.value, EntryFor(items, path)) && found.value.nlink == LinksFor(items, path)
    ensures found.Some? ==> KindSays(found.value, FlagFor(items, path))
    ensures found.Some? && RegularAt(items, path) ==>
              data == DataFor(items, path, off) && (data.Some? <==> 512 * off < found.value.size)
  {
    hide IsImage, IsArchive, Build, FilesOf, Found, EntryFor, FlagFor, DataFor, LookupExt, Describes, FsReader.Ok,
         Reaches, Strays, AstrayFor, SubNames, SubdirNames, Exists, FirstMakesDir, EntryOk, IntactFor;
    ghost var t := Build(FilesOf(items));
    data := None;
    SuperLast(img, tar, v, nodes, index, t, dsize);
    TreeSays(tar, items, path);
    TreeReaches(tar, items, path);
    TreeStrays(tar, items, path);
    SubNamesAre(tar, items, path);
    var r := Open(img, tar, v, nodes, index, t, dsize);
    var blkno;
    ghost var n;
    found, blkno, astray, n := Locate(r, path, off, index, t);
    if found.Some? {
      ReachesIn(t, path);
      EntryDescribes(n, t[path]);
      KindFrom(tar, items, path, n.d);
      if found.value.fmt == REG {
        SizeFrom(tar, items, path, n.d, off);
        MappedData(tar, items, path, off, n);
        if blkno.Some? {
          var x := r.io.ReadBlock(blkno.value);
          data := Some(x);
        }
      }
    }
  }

  lemma ReachesIn(t: Fs, path: Path)
    requires Reaches(t, path)
    ensures path in t
  {
  }

  lemma EntryDescribes(n: Node, e: Entry)
    requires EntryOk(n, e)
    ensures Describes(n.d, e)
  {
  }

  /**
    * mkfs, then a lookup in the image, said without replaying either: the path is found exactly when it is a
    * prefix of some entry's path and no entry for anything on the way is something else than a directory; it has the
    * attributes of the last entry for it (or is a default directory) and two links and one for every directory made
    * in it; its kind is that of the last type flag; and block `off` of a regular file is the block the archive holds
    * for it, as long as it holds bytes below the file's size. The walk is not followed into a directory that was
    * something else (`astray`).
    */
  method MkfsThenRead(tar: seq<Block>, ghost items: seq<Item>, path: Path, off: nat)
    returns (out: Outcome, found: Option<Dinode>, data: Option<Block>, astray: bool)
    requires Mountable(tar, items) && forall c :: c in path ==> c != R.DOT && c != R.DOTDOT
    ensures out == Fate(tar, FilesOf(items))
    ensures out == Made ==>
              && (found.Some? <==> Found(items, path)) && (astray <==> AstrayFor(items, path))
              && (found.Some? ==> Describes(found.value, EntryFor(items, path)))
              && (found.Some? ==> found.value.nlink == LinksFor(items, path))
              && (found.Some? ==> KindSays(found.value, FlagFor(items, path)))
              && (found.Some? && RegularAt(items, path) ==>
                    data == DataFor(items, path, off) && (data.Some? <==> 512 * off < found.value.size))
  {
    hide IsImage, IsArchive, Build, FilesOf, Found, AstrayFor, EntryFor, RegularAt, FlagFor, DataFor, Describes, Fate,
         KindSays, DataSize,
         LinksFor;
    found, data, astray := None, None, false;
    var img;
    ghost var v, nodes, index;
    out, img, v, nodes, index := MkfsImage(tar, items);
    if out == Made {
      found, data, astray := ReadPath(img, path, off, tar, items, v, nodes, index, DataSize(FilesOf(items)));
    }
  }

  /**
    * mkfs, then a lookup, said in the fields of the header the archiver wrote last for the path: mode, owner, group
    * and time are those written there, times in microseconds; a regular file has the size written, a symbolic link
    * the length of its target; and the inode names the block of that header.
    */
  method MkfsThenStat(tar: seq<Block>, ghost items: seq<Item>, path: Path, ghost u: Ustar.Header, ghost a: Ustar.Attrs)
    returns (out: Outcome, found: Option<Dinode>)
    requires Mountable(tar, items) && forall c :: c in path ==> c != R.DOT && c != R.DOTDOT
    requires HeaderFor(items, path, u) && Ustar.Says(u, a)
    ensures out == Fate(tar, FilesOf(items))
    ensures out == Made ==> (found.Some? <==> Found(items, path))
    ensures out == Made && found.Some? ==>
              var d := found.value;
              && (u.flag == 48 ==> d.fmt == REG && d.size == a.size) && (u.flag == 53 ==> d.fmt == DIR)
              && (u.flag == 50 ==> d.fmt == LNK && d.size == |a.target|)
              && d.perm == a.mode - a.mode / 4096 % 16 * 4096 && d.uid == a.uid && d.gid == a.gid
              && d.mtime == d.atime == d.ctime == 1000000 * a.mtime
              && d.header < |tar| && tar[d.header] == Raw(u.Bytes())
  {
    hide IsArchive, FilesOf, Found, AstrayFor, EntryFor, RegularAt, FlagFor, DataFor, Describes, Fate, LinksFor,
         HeaderFor, Ustar.Says, Ustar.Header.Bytes;
    var data, astray;
    out, found, data, astray := MkfsThenRead(tar, items, path, 0);
    if out == Made && found.Some? {
      DinodeSays(tar, items, path, found.value, u, a);
    }
  }

  // ----- listing a directory

  /** What a directory listing may contain. */
  predicate InDir(t: Fs, path: Path, name: Name) {
    name == R.DOT || name == R.DOTDOT || path + [name] in t
  }

  predicate HasName(live: seq<(Name, nat)>, name: Name) {
    exists k :: 0 <= k < |live| && live[k].0 == name
  }

  lemma {:induction false} AssocNamed(live: seq<(Name, nat)>, name: Name)
    ensures R.Assoc(live, name).Some? <==> HasName(live, name)
  {
    if live != [] {
      AssocNamed(live[1..], name);
      if k :| 0 <= k < |live| && live[k].0 == name {
        assert k > 0 ==> live[1..][k - 1].0 == name;
      }
      if k :| 0 <= k < |live[1..]| && live[1..][k].0 == name {
        assert live[k + 1].0 == name;
      }
      assert live[0].0 == name ==> HasName(live, name);
    }
  }

  /** The live records of a directory are "." and ".." and one for every path one component longer. */
  lemma LiveNames(nodes: seq<Node>, index: map<Path, nat>, t: Fs, i: nat)
    requires TreeOk(nodes, index) && Represents(nodes, index, t) && 0 < i < |nodes| && MadeDir(nodes[i])
    ensures DistinctNames(R.Live(nodes[i].recs))
    ensures forall name :: HasName(R.Live(nodes[i].recs), name) <==> InDir(t, nodes[i].path, name)
  {
    hide R.Live, R.Lookup, EntryOk, NlinkOk, PathsOk, HasName, DistinctNames;
    assert DirNames(index, i, nodes[i]);
    forall name
      ensures HasName(R.Live(nodes[i].recs), name) <==> InDir(t, nodes[i].path, name)
    {
      assert R.Lookup(nodes[i].recs, name) == Child(index, nodes[i].path, i, name);
      R.LookupIsAssoc(nodes[i].recs, name);
      AssocNamed(R.Live(nodes[i].recs), name);
    }
  }

  function NamesOf(live: seq<(Name, nat)>): (r: seq<Name>)
    ensures |r| == |live|
    ensures forall i :: 0 <= i < |r| ==> r[i] == live[i].0
  {
    seq(|live|, i requires 0 <= i < |live| => live[i].0)
  }

  /** Names without repetition, all of them allowed; every allowed one if `whole`. */
  ghost predicate Lists(names: seq<Name>, t: Fs, path: Path, whole: bool) {
    && (forall i, j :: 0 <= i < j < |names| ==> names[i] != names[j])
    && (forall name :: name in names ==> InDir(t, path, name))
    && (whole ==> forall name :: InDir(t, path, name) ==> name in names)
  }

  lemma TakenLists(live: seq<(Name, nat)>, taken: seq<(Name, nat)>, t: Fs, path: Path, whole: bool)
    requires DistinctNames(live) && taken <= live && (whole ==> taken == live)
    requires forall name :: HasName(live, name) <==> InDir(t, path, name)
    ensures Lists(NamesOf(taken), t, path, whole)
  {
    hide InDir;
    forall name | name in NamesOf(taken)
      ensures HasName(live, name)
    {
      var k :| 0 <= k < |taken| && NamesOf(taken)[k] == name;
      assert live[k].0 == name;
    }
    if whole {
      forall name | HasName(live, name)
        ensures name in NamesOf(taken)
      {
        var k :| 0 <= k < |live| && live[k].0 == name;
        assert NamesOf(taken)[k] == name;
      }
    }
  }

  /** The kernel lists the directory at `path` of an open image in several calls. */
  method List(r: FsReader, path: Path, rooms: seq<nat>, ghost index: map<Path, nat>, ghost t: Fs)
    returns (names: Option<seq<Name>>, astray: bool)
    requires r.Ok(index, t) && forall c :: c in path ==> c != R.DOT && c != R.DOTDOT
    ensures names.Some? <==> Reaches(t, path) && IsIntact(t[path])
    ensures astray <==> Strays(t, path) || (Reaches(t, path) && WasOther(t[path]))
    ensures names.Some? ==> Lists(names.value, t, path, |names.value| < Sum(rooms))
  {
    hide FsReader.Ok, EntryOk, R.Live, Sum, Lists, TreeOk, Represents, CanRead, MapReadable, DirReadableAt,
         Reaches, Strays, OwnRecords, IsIntact, IsDirEntry;
    names := None;
    ReaderParts(r, index, t);
    var inode;
    inode, astray := r.Walk(path, index, t);
    if inode == null {
      return;
    }
    ghost var n := r.fac.nodes[inode.ino];
    ReachesPasses(t, path);
    ReachesIn(t, path);
    KindOf(n, t[path]);
    DirParts(r.io.blocks, r.fac.nodes, inode.ino, r.sb.free);
    astray := inode.IsDir() && !OwnRecords(inode.dinode, r.sb.free);
    if inode.IsDir() && !astray {
      CanReadDir(r.io, inode, n);
      var taken := Session(inode, r.io, rooms);
      LiveNames(r.fac.nodes, index, t, inode.ino);
      TakenLists(R.Live(inode.recs), taken, t, path, |taken| < Sum(rooms));
      names := Some(NamesOf(taken));
    }
  }

  lemma ReaderParts(r: FsReader, index: map<Path, nat>, t: Fs)
    requires r.Ok(index, t)
    ensures TreeOk(r.fac.nodes, index) && Represents(r.fac.nodes, index, t)
    ensures forall i :: 0 < i < |r.fac.nodes| ==> CanRead(r.io.blocks, r.fac.nodes, i, r.sb.free)
  {
  }

  lemma DirParts(blocks: seq<Block>, nodes: seq<Node>, i: nat, org: nat)
    requires 0 < i < |nodes| && CanRead(blocks, nodes, i, org)
    ensures MapReadable(blocks, nodes[i])
    ensures nodes[i].d.fmt == DIR ==> (nodes[i].intact <==> OwnRecords(nodes[i].d, org))
    ensures nodes[i].intact ==> DirReadableAt(blocks, nodes[i]) && MadeDir(nodes[i])
  {
  }

  /**
    * mkfs, then the kernel lists a directory, the consumer taking up to rooms[i] names in call i: it gets ".",
    * ".." and the components that entries of the archive have behind `path`, each once, and all of them if it
    * had room left. The listing of a directory that was something else is not followed (`astray`).
    */
  method MkfsThenList(tar: seq<Block>, ghost items: seq<Item>, path: Path, rooms: seq<nat>)
    returns (out: Outcome, names: Option<seq<Name>>, astray: bool)
    requires Mountable(tar, items) && forall c :: c in path ==> c != R.DOT && c != R.DOTDOT
    ensures out == Fate(tar, FilesOf(items))
    ensures out == Made ==>
              && (names.Some? <==> IsDirAt(items, path))
              && (astray <==> AstrayFor(items, path) || AstrayAt(items, path, |path|))
              && (names.Some? ==>
                    && (forall i, j :: 0 <= i < j < |names.value| ==> names.value[i] != names.value[j])
                    && (forall name :: name in names.value ==> Named(items, path, name))
                    && (|names.value| < Sum(rooms) ==> forall name :: Named(items, path, name) ==> name in names.value))
  {
    hide IsImage, IsArchive, Build, FilesOf, Exists, EntryFor, Fate, DataSize, Sum, FsReader.Ok, Reaches, Strays, Found,
         FirstMakesDir, AstrayFor, AstrayAt, IsIntact, IntactFor;
    names, astray := None, false;
    var img;
    ghost var v, nodes, index;
    out, img, v, nodes, index := MkfsImage(tar, items);
    if out == Made {
      ghost var t := Build(FilesOf(items));
      SuperLast(img, tar, v, nodes, index, t, DataSize(FilesOf(items)));
      TreeSays(tar, items, path);
      TreeReaches(tar, items, path);
      TreeStrays(tar, items, path);
      TreeEnds(tar, items, path);
      if Reaches(t, path) { ReachesIn(t, path); }
      var r := Open(img, tar, v, nodes, index, t, DataSize(FilesOf(items)));
      names, astray := List(r, path, rooms, index, t);
      SameNames(tar, items, path);
    }
  }

  lemma SameNames(tar: seq<Block>, items: seq<Item>, path: Path)
    requires IsArchive(tar, items)
    ensures forall name :: Named(items, path, name) <==> InDir(Build(FilesOf(items)), path, name)
  {
    hide IsArchive, Build, FilesOf, Exists, EntryFor, FirstMakesDir;
    forall name
      ensures Named(items, path, name) <==> InDir(Build(FilesOf(items)), path, name)
    {
      TreeSays(tar, items, path + [name]);
    }
  }

  /** mkfs, then detachtarfs: the archive is back, block for block, after every run that makes an image. */
  method MkfsThenDetach(tar: seq<Block>, ghost items: seq<Item>) returns (out: Outcome, back: Option<seq<Block>>)
    requires Mountable(tar, items)
    ensures back == if out == Made then Some(tar) else None
    ensures out == Fate(tar, FilesOf(items))
  {
    hide IsImage, IsArchive, Build, FilesOf, Fate, DataSize;
    var img;
    ghost var v, nodes, index;
    out, img, v, nodes, index := MkfsImage(tar, items);
    back := None;
    if out == Made {
      SuperLast(img, tar, v, nodes, index, Build(FilesOf(items)), DataSize(FilesOf(items)));
      back := Detach(img, tar, v, nodes, index, Build(FilesOf(items)), DataSize(FilesOf(items)));
    }
  }

  /** Consecutive block numbers between `lo` and `hi`. */
  predicate IsRun(list: seq<nat>, lo: nat, hi: nat) {
    && (forall i :: 0 <= i < |list| ==> lo <= list[i] < hi)
    && (forall i :: 0 < i < |list| ==> list[i] == list[i - 1] + 1)
  }

  function Run(lo: nat, n: nat): (r: seq<nat>)
    ensures |r| == n
    ensures forall i :: 0 <= i < n ==> r[i] == lo + i
  {
    seq(n, i requires 0 <= i => lo + i)
  }

  /** The lists of two allocators are runs of added blocks and share none. */
  lemma FreeRuns(img: seq<Block>, tar: seq<Block>, v: Vol, nodes: seq<Node>, index: map<Path, nat>, t: Fs,
                 dsize: nat, m: nat, k: nat)
    requires m < 3 && k < 3 && IsImage(img, tar, v, nodes, index, t, dsize)
    ensures var l := FollowFree(img, HeadOf(SuperOf(img), m), |img|);
            && IsRun(l, |tar|, |img| - 1)
            && (k != m ==> forall b :: b in l ==> b !in FollowFree(img, HeadOf(SuperOf(img), k), |img|))
  {
    hide IsImage, VolOk, FollowFree, SuperOf, HeadOf, SpaceOk, Synced, SuperOk;
    ImageParts(img, tar, v, nodes, index, t, dsize);
    FinalFreeLists(img, tar, v, nodes, index, t, dsize, m);
    FinalFreeLists(img, tar, v, nodes, index, t, dsize, k);
    PoolsApart(v, m, k);
    assert FollowFree(img, HeadOf(SuperOf(img), m), |img|) == Run(v.pools[m].lo, v.pools[m].hi - v.pools[m].lo);
    assert FollowFree(img, HeadOf(SuperOf(img), k), |img|) == Run(v.pools[k].lo, v.pools[k].hi - v.pools[k].lo);
  }

  lemma PoolsApart(v: Vol, m: nat, k: nat)
    requires SpaceOk(v) && m < 3 && k < 3
    ensures v.pools[m].lo < v.pools[m].hi ==> v.org <= v.pools[m].lo && v.pools[m].hi <= |v.blocks|
    ensures v.pools[m].lo < v.pools[m].hi && v.pools[k].lo < v.pools[k].hi && k != m ==>
              v.pools[m].hi <= v.pools[k].lo || v.pools[k].hi <= v.pools[m].lo
  {
    assert PoolOk(v, m) && PoolOk(v, k);
    if v.pools[m].lo < v.pools[m].hi {
      assert v.owner[v.pools[m].lo] == Free(m);
    }
    if v.pools[k].lo < v.pools[k].hi {
      assert v.owner[v.pools[k].lo] == Free(k);
    }
  }

  /** A list in the superblock starts at its first block, or is marked empty. */
  predicate StartsAt(head: nat, list: seq<nat>) {
    head == if list == [] then 0xFFFF_FFFF_FFFF_FFFF else list[0]
  }

  lemma HeadFirst(img: seq<Block>, tar: seq<Block>, v: Vol, nodes: seq<Node>, index: map<Path, nat>, t: Fs,
                  dsize: nat, m: nat)
    requires m < 3 && IsImage(img, tar, v, nodes, index, t, dsize)
    ensures StartsAt(HeadOf(SuperOf(img), m), FollowFree(img, HeadOf(SuperOf(img), m), |img|))
  {
    hide IsImage, VolOk, FollowFree, SuperOf, SpaceOk, Synced;
    ImageParts(img, tar, v, nodes, index, t, dsize);
    FinalFreeLists(img, tar, v, nodes, index, t, dsize, m);
    var p := v.pools[m];
    assert FollowFree(img, HeadOf(SuperOf(img), m), |img|) == Run(p.lo, p.hi - p.lo);
  }

  /** The lists hold exactly the blocks that nothing else uses. */
  lemma FreeExactly(img: seq<Block>, tar: seq<Block>, v: Vol, nodes: seq<Node>, index: map<Path, nat>, t: Fs,
                    dsize: nat, m: nat, b: nat)
    requires m < 3 && IsImage(img, tar, v, nodes, index, t, dsize)
    ensures |v.pools| == 3 && |nodes| > 0
    ensures b in FollowFree(img, HeadOf(SuperOf(img), m), |img|) <==> b < |v.blocks| && Serves(v, nodes, b, Free(m))
  {
    hide IsImage, VolOk, FollowFree, SuperOf, HeadOf, SpaceOk, Synced, SuperOk;
    ImageParts(img, tar, v, nodes, index, t, dsize);
    FinalFreeLists(img, tar, v, nodes, index, t, dsize, m);
    PoolsApart(v, m, m);
    var p := v.pools[m];
    assert FollowFree(img, HeadOf(SuperOf(img), m), |img|) == Run(p.lo, p.hi - p.lo);
    assert p.lo <= b < p.hi ==> Run(p.lo, p.hi - p.lo)[b - p.lo] == b;
  }

  /**
    * mkfs, then the superblock: it counts the inodes and data blocks the archive calls for and the blocks added,
    * and its three free lists, followed on the image, are disjoint runs of added blocks: exactly those that no
    * inode, directory or indirect map uses. The inodes of the image are all in order exactly when no path ends as a
    * directory after it was something else.
    */
  method MkfsThenInspect(tar: seq<Block>, ghost items: seq<Item>)
    returns (out: Outcome, sb: SBlock, lists: seq<seq<nat>>, ghost v: Vol, ghost nodes: seq<Node>)
    requires Mountable(tar, items)
    ensures out == Fate(tar, FilesOf(items))
    ensures out == Made ==>
              && sb.inodes == |Build(FilesOf(items))| + 1 && sb.dsize == DataBlocks(items)
              && sb.free == |tar| && sb.root == |tar| + 1 && sb.size % 256 == 1
              && |lists| == 3 && StartsAt(sb.flistDirdata, lists[0])
              && StartsAt(sb.flistIexdata, lists[1]) && StartsAt(sb.flistDinode, lists[2])
              && (forall m :: 0 <= m < 3 ==> IsRun(lists[m], |tar|, |tar| + sb.size - 1))
              && (forall m, k :: 0 <= m < 3 && 0 <= k < 3 && m != k ==> forall b :: b in lists[m] ==> b !in lists[k])
    ensures out == Made ==>
              && VolOk(v, nodes) && v.org == |tar| && |v.blocks| == |tar| + sb.size - 1 && |v.pools| == 3 && |nodes| > 0
              && forall m, b: nat :: 0 <= m < 3 ==>
                   (b in lists[m] <==> b < |v.blocks| && Serves(v, nodes, b, Free(m)))
    ensures out == Made ==> ((forall i :: 0 < i < |nodes| ==> InOrder(v, i, nodes[i])) <==> DirsStay(FilesOf(items)))
  {
    hide IsImage, IsArchive, Build, FilesOf, Fate, DataSize, FollowFree, IsRun, LookupExt, VolOk, Serves, Synced,
         InOrder, DirsStay, DataBlocks, ItemOk;
    sb, lists := SBlock(0, 0, 0, 0, 0, 0, 0, 0, 0), [];
    var img;
    ghost var index;
    out, img, v, nodes, index := MkfsImage(tar, items);
    if out == Made {
      ghost var t, dsize := Build(FilesOf(items)), DataSize(FilesOf(items));
      SuperLast(img, tar, v, nodes, index, t, dsize);
      ImageParts(img, tar, v, nodes, index, t, dsize);
      sb := SuperOf(img);
      Accounting(img, tar, v, nodes, index, t, dsize);
      ImageOrder(img, tar, items, v, nodes, index, dsize);
      ItemsOk(tar, items);
      DataTotal(items);
      HeadFirst(img, tar, v, nodes, index, t, dsize, 0);
      HeadFirst(img, tar, v, nodes, index, t, dsize, 1);
      HeadFirst(img, tar, v, nodes, index, t, dsize, 2);
      lists := seq(3, m requires 0 <= m < 3 => FollowFree(img, HeadOf(sb, m), |img|));
      forall m, k | 0 <= m < 3 && 0 <= k < 3
        ensures IsRun(lists[m], |tar|, |img| - 1) && (k != m ==> forall b :: b in lists[m] ==> b !in lists[k])
      {
        FreeRuns(img, tar, v, nodes, index, t, dsize, m, k);
      }
      forall m, b: nat | 0 <= m < 3
        ensures b in lists[m] <==> b < |v.blocks| && Serves(v, nodes, b, Free(m))
      {
        FreeExactly(img, tar, v, nodes, index, t, dsize, m, b);
      }
    }
  }

  /** The inodes of a built image are in order exactly when no path ends as a directory after it was something else. */
  lemma ImageOrder(img: seq<Block>, tar: seq<Block>, items: seq<Item>, v: Vol, nodes: seq<Node>, index: map<Path, nat>,
                   dsize: nat)
    requires IsArchive(tar, items) && IsImage(img, tar, v, nodes, index, Build(FilesOf(items)), dsize)
    ensures (forall i :: 0 < i < |nodes| ==> InOrder(v, i, nodes[i])) <==> DirsStay(FilesOf(items))
  {
    hide IsImage, IsArchive, Build, FilesOf, InOrder, DirsStay, DirsIntact;
    ImageInOrder(img, tar, v, nodes, index, Build(FilesOf(items)), dsize);
    PathsThere(tar, items);
    OrderMeans(FilesOf(items));
  }

  lemma ItemsOk(tar: seq<Block>, items: seq<Item>)
    requires IsArchive(tar, items)
    ensures forall i :: i in items ==> ItemOk(i)
  {
    hide ItemOk, Stops, LayAll;
  }

  /** mkfs leaves its own image alone. */
  method MkfsTwice(tar: seq<Block>, ghost items: seq<Item>) returns (out: Outcome, again: bool)
    requires Mountable(tar, items)
    ensures out == Fate(tar, FilesOf(items)) && (out == Made ==> !again)
  {
    hide IsImage, IsArchive, Build, FilesOf, Fate, DataSize;
    var img;
    ghost var v, nodes, index;
    out, img, v, nodes, index := MkfsImage(tar, items);
    again := false;
    if out == Made {
      SuperLast(img, tar, v, nodes, index, Build(FilesOf(items)), DataSize(FilesOf(items)));
      var m := Create(img);
      again := m != null;
    }
  }
}
