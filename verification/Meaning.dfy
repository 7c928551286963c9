/** What an archive means, said of its items alone: which paths exist, what they are, what data they have. */
module Meaning {
  import opened Meta
  import opened TarFile
  import opened Parser
  import opened Extents
  import opened Nodes
  import opened Tree
  import opened Mkfs
  import opened Facts
  import PathSplit
  import Ustar
  import R = Records

  // ----- paths

  /** Some entry is on or below the path. */
  predicate Exists(items: seq<Item>, path: Path) {
    path == [] || IsAncestor(FilesOf(items), path)
  }

  /** The last entry for the path, or a directory made on the way. */
  function EntryFor(items: seq<Item>, path: Path): Entry {
    var i := LastFor(FilesOf(items), path);
    if i < |items| then Given(FilesOf(items)[i], FirstMakesDir(FilesOf(items), path), DataFileFor(FilesOf(items), path))
    else Implicit
  }

  predicate IsDirFor(items: seq<Item>, path: Path) {
    IsDirEntry(EntryFor(items, path))
  }

  /** No entry for the path is anything else than a directory. */
  predicate IntactFor(items: seq<Item>, path: Path) {
    LastDataFor(FilesOf(items), path) == |items|
  }

  /** The path exists, and no entry for anything on the way to it is something else than a directory. */
  predicate Found(items: seq<Item>, path: Path) {
    Exists(items, path) && forall k :: 0 <= k < |path| ==> IntactFor(items, path[..k])
  }

  /** The first on the way to the path that has an entry that is no directory ends as a directory. */
  predicate AstrayFor(items: seq<Item>, path: Path) {
    exists k :: 0 < k < |path| && AstrayAt(items, path, k)
  }

  predicate AstrayAt(items: seq<Item>, path: Path, k: nat)
    requires k <= |path|
  {
    && !IntactFor(items, path[..k]) && IsDirFor(items, path[..k])
    && forall j :: 0 < j < k ==> IntactFor(items, path[..j])
  }

  lemma TreeSays(tar: seq<Block>, items: seq<Item>, path: Path)
    requires IsArchive(tar, items)
    ensures var t := Build(FilesOf(items));
            && (path in t <==> Exists(items, path)) && (path in t ==> t[path] == EntryFor(items, path))
            && (path in t && path != [] ==> (MadeAsDir(t[path]) <==> FirstMakesDir(FilesOf(items), path)))
            && (IntactIn(t, path) <==> IntactFor(items, path))
            && (!IntactFor(items, path) ==> path in t)
            && (path == [] ==> path in t && t[path] == Implicit)
  {
    hide IsArchive, Build, LastFor, LastDataFor, IsAncestor, FilesOf, FirstMakesDir;
    PathsThere(tar, items);
    BuildMeaning(FilesOf(items), path);
    IntactMeans(FilesOf(items), path);
  }

  lemma ExistsAbove(items: seq<Item>, path: Path, k: nat)
    requires Exists(items, path) && k <= |path|
    ensures Exists(items, path[..k])
  {
    if path != [] {
      var i :| 0 <= i < |FilesOf(items)| && path <= FilesOf(items)[i].path;
      assert path[..k] <= FilesOf(items)[i].path;
    }
  }

  /** A path is reached in the tree exactly when the items say it is found. */
  lemma TreeReaches(tar: seq<Block>, items: seq<Item>, path: Path)
    requires IsArchive(tar, items)
    ensures Reaches(Build(FilesOf(items)), path) <==> Found(items, path)
  {
    hide IsArchive, Build, FilesOf, Exists, EntryFor, FirstMakesDir;
    var t := Build(FilesOf(items));
    TreeSays(tar, items, path);
    forall k | 0 <= k < |path| && Exists(items, path)
      ensures IntactIn(t, path[..k]) <==> IntactFor(items, path[..k])
    {
      TreeSays(tar, items, path[..k]);
    }
  }

  /** A path ends at a directory that was something else exactly when the items say so. */
  lemma TreeEnds(tar: seq<Block>, items: seq<Item>, path: Path)
    requires IsArchive(tar, items)
    ensures var t := Build(FilesOf(items));
            Reaches(t, path) && WasOther(t[path]) <==> AstrayAt(items, path, |path|)
  {
    hide IsArchive, Build, FilesOf, Exists, EntryFor, FirstMakesDir, IntactFor;
    var t := Build(FilesOf(items));
    TreeSays(tar, items, []);
    forall k | 0 <= k <= |path|
      ensures IntactIn(t, path[..k]) <==> IntactFor(items, path[..k])
    {
      TreeSays(tar, items, path[..k]);
    }
    TreeSays(tar, items, path);
    assert path[..|path|] == path && path[..0] == [];
    assert IntactIn(t, []);
  }

  lemma PathsThere(tar: seq<Block>, items: seq<Item>)
    requires IsArchive(tar, items)
    ensures forall f :: f in FilesOf(items) ==> |f.path| > 0
  {
    hide IsArchive, FilesOf;
    forall k | 0 <= k < |items|
      ensures FilesOf(items)[k].Valid()
    {
      GetStep(tar, tar, items, k);
    }
  }

  /** A walk to a path is led astray by the tree exactly when the items say so. */
  lemma TreeStrays(tar: seq<Block>, items: seq<Item>, path: Path)
    requires IsArchive(tar, items)
    ensures Strays(Build(FilesOf(items)), path) <==> AstrayFor(items, path)
  {
    hide IsArchive, Build, FilesOf, Exists, EntryFor, FirstMakesDir, IntactFor, IntactIn;
    var t := Build(FilesOf(items));
    forall k | 0 < k < |path|
      ensures IntactIn(t, path[..k]) <==> IntactFor(items, path[..k])
      ensures !IntactFor(items, path[..k]) ==> path[..k] in t && t[path[..k]] == EntryFor(items, path[..k])
    {
      TreeSays(tar, items, path[..k]);
    }
    forall k | 0 < k < |path|
      ensures Obstacle(t, path, k) && IsDirEntry(t[path[..k]]) <==> AstrayAt(items, path, k)
    {
      ObstacleIs(t, path, k);
    }
  }

  lemma ObstacleIs(t: Fs, path: Path, k: nat)
    requires k <= |path|
    ensures Obstacle(t, path, k) <==> IntactTo(t, path, k) && !IntactIn(t, path[..k])
  {
  }

  // ----- which entries go in, said of the entries alone

  /** A path is there as something else than an intact directory exactly when it has an entry that is no directory. */
  lemma IntactMeans(files: seq<File>, p: Path)
    requires forall f :: f in files ==> |f.path| > 0
    ensures IntactIn(Build(files), p) <==> LastDataFor(files, p) == |files|
    ensures LastDataFor(files, p) < |files| ==>
              p in Build(files) && (IsDirEntry(Build(files)[p]) <==> LastFor(files, p) != LastDataFor(files, p))
  {
    hide Build, LastFor, LastDataFor, FirstMakesDir, IsDirFile;
    BuildMeaning(files, p);
    var i := LastDataFor(files, p);
    assert i < |files| ==> p <= files[i].path;
  }

  lemma IntactBefore(files: seq<File>, k: nat, p: Path)
    requires k < |files| && forall f :: f in files ==> |f.path| > 0
    ensures IntactIn(Build(files[..k]), p) <==> LastDataFor(files[..k], p) == k
    ensures LastDataFor(files[..k], p) < k ==>
              && p in Build(files[..k])
              && (IsDirEntry(Build(files[..k])[p]) <==> LastFor(files[..k], p) != LastDataFor(files[..k], p))
  {
    hide Build, LastFor, LastDataFor, IntactIn, IsDirEntry;
    assert forall f :: f in files[..k] ==> f in files;
    IntactMeans(files[..k], p);
  }

  /** An entry goes in exactly when no entry before it is no directory and has a path above its own. */
  lemma PassesMeans(files: seq<File>, k: nat)
    requires k < |files| && forall f :: f in files ==> |f.path| > 0
    ensures PassesAt(files, k) <==>
            forall i :: 0 <= i < k && !IsDirFile(files[i]) ==> !(files[i].path < files[k].path)
  {
    hide Build, LastDataFor, IntactIn, IsDirFile;
    var path := files[k].path;
    forall j | 0 < j < |path|
      ensures IntactIn(Build(files[..k]), path[..j]) <==> LastDataFor(files[..k], path[..j]) == k
    {
      IntactBefore(files, k, path[..j]);
    }
    forall i | 0 <= i < k && !IsDirFile(files[i]) && files[i].path < path
      ensures !PassesAt(files, k)
    {
      var j := |files[i].path|;
      assert files[i] in files && path[..j] == files[i].path && files[..k][i] == files[i];
    }
    forall j | 0 < j < |path| && LastDataFor(files[..k], path[..j]) < k
      ensures exists i :: 0 <= i < k && !IsDirFile(files[i]) && files[i].path < path
    {
      var i := LastDataFor(files[..k], path[..j]);
      assert files[..k][i] == files[i];
    }
  }

  /** All entries go in exactly when none that is no directory has one below it later. */
  lemma AllGoInMeans(files: seq<File>)
    requires forall f :: f in files ==> |f.path| > 0
    ensures AllGoIn(files) <==>
            forall i, k :: 0 <= i < k < |files| && !IsDirFile(files[i]) ==> !(files[i].path < files[k].path)
  {
    hide PassesAt, IsDirFile;
    forall k | 0 <= k < |files|
      ensures PassesAt(files, k) <==>
              forall i :: 0 <= i < k && !IsDirFile(files[i]) ==> !(files[i].path < files[k].path)
    {
      PassesMeans(files, k);
    }
  }

  /** The shortest path above that of entry `k` for which an entry before it is no directory has `j` components. */
  predicate EndsAt(files: seq<File>, k: nat, j: nat)
    requires k < |files| && j <= |files[k].path|
  {
    && LastDataFor(files[..k], files[k].path[..j]) < k
    && forall i :: 0 < i < j ==> LastDataFor(files[..k], files[k].path[..i]) == k
  }

  lemma EndsMeans(files: seq<File>, k: nat, j: nat)
    requires k < |files| && 0 < j < |files[k].path| && forall f :: f in files ==> |f.path| > 0
    ensures Obstacle(Build(files[..k]), files[k].path, j) <==> EndsAt(files, k, j)
    ensures EndsAt(files, k, j) ==>
              var p := files[k].path[..j];
              && p in Build(files[..k])
              && (IsDirEntry(Build(files[..k])[p]) <==> LastFor(files[..k], p) != LastDataFor(files[..k], p))
  {
    hide Build, LastFor, LastDataFor, IntactIn, IsDirEntry;
    forall i | 0 < i <= j
      ensures IntactIn(Build(files[..k]), files[k].path[..i]) <==> LastDataFor(files[..k], files[k].path[..i]) == k
    {
      IntactBefore(files, k, files[k].path[..i]);
    }
    IntactBefore(files, k, files[k].path[..j]);
    ObstacleIs(Build(files[..k]), files[k].path, j);
  }

  /** An entry is blocked exactly when the last entry for that path is no directory. */
  lemma BlockedMeans(files: seq<File>, k: nat)
    requires k < |files| && forall f :: f in files ==> |f.path| > 0
    ensures BlockedAt(files, k) <==>
            exists j :: 0 < j < |files[k].path| && EndsAt(files, k, j)
                        && LastFor(files[..k], files[k].path[..j]) == LastDataFor(files[..k], files[k].path[..j])
  {
    hide Build, LastFor, LastDataFor, Obstacle, EndsAt, IsDirEntry;
    forall j | 0 < j < |files[k].path|
      ensures Obstacle(Build(files[..k]), files[k].path, j) <==> EndsAt(files, k, j)
      ensures EndsAt(files, k, j) ==>
                var p := files[k].path[..j];
                && p in Build(files[..k])
                && (IsDirEntry(Build(files[..k])[p]) <==> LastFor(files[..k], p) != LastDataFor(files[..k], p))
    {
      EndsMeans(files, k, j);
    }
  }

  /** It goes astray exactly when a directory came after what was no directory. */
  lemma StraysMeans(files: seq<File>, k: nat)
    requires k < |files| && forall f :: f in files ==> |f.path| > 0
    ensures StraysAt(files, k) <==>
            exists j :: 0 < j < |files[k].path| && EndsAt(files, k, j)
                        && LastFor(files[..k], files[k].path[..j]) != LastDataFor(files[..k], files[k].path[..j])
  {
    hide Build, LastFor, LastDataFor, Obstacle, EndsAt, IsDirEntry;
    forall j | 0 < j < |files[k].path|
      ensures Obstacle(Build(files[..k]), files[k].path, j) <==> EndsAt(files, k, j)
      ensures EndsAt(files, k, j) ==>
                var p := files[k].path[..j];
                && p in Build(files[..k])
                && (IsDirEntry(Build(files[..k])[p]) <==> LastFor(files[..k], p) != LastDataFor(files[..k], p))
    {
      EndsMeans(files, k, j);
    }
  }

  /** Above an entry that went in with all before it, no entry is anything else than a directory. */
  lemma ClearAbove(files: seq<File>, k: nat, j: nat)
    requires k + 1 < |files| && GoIn(files, k + 1) && (forall f :: f in files ==> |f.path| > 0)
    requires files[k].path < files[k + 1].path && 0 < j < |files[k].path|
    ensures LastDataFor(files[..k + 1], files[k + 1].path[..j]) == k + 1
  {
    hide IsDirFile, PassesAt;
    PassesMeans(files, k);
    var p, q := files[k].path, files[k + 1].path;
    var i := LastDataFor(files[..k + 1], q[..j]);
    assert q[..j] == p[..j] && p[..j] < p;
    assert forall m :: 0 <= m < k + 1 ==> files[..k + 1][m] == files[m];
  }

  /** What blocks an entry from where the path of the directory before it ends is something between the two. */
  lemma BlockedBetween(files: seq<File>, k: nat, j: nat)
    requires k + 1 < |files| && files[k].path < files[k + 1].path && |files[k].path| <= j < |files[k + 1].path|
    requires IsDirFile(files[k]) && EndsAt(files, k + 1, j)
    requires var p := files[k + 1].path[..j]; LastFor(files[..k + 1], p) == LastDataFor(files[..k + 1], p)
    ensures exists i :: 0 <= i < k && !IsDirFile(files[i]) && files[k].path < files[i].path < files[k + 1].path
  {
    hide IsDirFile;
    var p, q := files[k].path, files[k + 1].path;
    var i := LastDataFor(files[..k + 1], q[..j]);
    assert files[..k + 1][i] == files[i] && files[..k + 1][k] == files[k];
    assert q[..|p|] == p && LastFor(files[..k + 1], p) == k;
    assert j > |p| && q[..j][..|p|] == p;
  }

  /** The entry behind something that is no directory, for a path below it, is always blocked. */
  lemma BelowFile(files: seq<File>, k: nat)
    requires k + 1 < |files| && GoIn(files, k + 1) && (forall f :: f in files ==> |f.path| > 0)
    requires files[k].path < files[k + 1].path && !IsDirFile(files[k])
    ensures BlockedAt(files, k + 1) && GetsStuck(files)
  {
    hide IsDirFile, BlockedAt, PassesAt;
    var p, q := files[k].path, files[k + 1].path;
    forall j | 0 < j < |p|
      ensures LastDataFor(files[..k + 1], q[..j]) == k + 1
    {
      ClearAbove(files, k, j);
    }
    assert files[..k + 1][k] == files[k] && q[..|p|] == p;
    assert LastDataFor(files[..k + 1], p) == k && LastFor(files[..k + 1], p) == k;
    hide LastFor, LastDataFor;
    assert EndsAt(files, k + 1, |p|);
    BlockedMeans(files, k + 1);
  }

  /** The entry behind a directory, for a path below it, is blocked by something between the two if at all. */
  lemma BelowDir(files: seq<File>, k: nat)
    requires k + 1 < |files| && GoIn(files, k + 1) && (forall f :: f in files ==> |f.path| > 0)
    requires files[k].path < files[k + 1].path && IsDirFile(files[k]) && BlockedAt(files, k + 1)
    ensures exists i :: 0 <= i < k && !IsDirFile(files[i]) && files[k].path < files[i].path < files[k + 1].path
  {
    hide IsDirFile, BlockedAt, PassesAt, LastFor, LastDataFor, GoIn;
    var p, q := files[k].path, files[k + 1].path;
    BlockedMeans(files, k + 1);
    var j :| 0 < j < |q| && EndsAt(files, k + 1, j)
             && LastFor(files[..k + 1], q[..j]) == LastDataFor(files[..k + 1], q[..j]);
    if j < |p| {
      ClearAbove(files, k, j);
    }
    BlockedBetween(files, k, j);
  }

  /** The type flag of item `k`. */
  function FlagAt(items: seq<Item>, k: nat): byte {
    if k < |items| && |items[k].header| == 512 then items[k].header[156] else 0
  }

  /** The same in type flags: behind '0' or '2' a path below is always blocked, behind '5' never by that item. */
  lemma BelowNext(tar: seq<Block>, items: seq<Item>, k: nat)
    requires IsArchive(tar, items) && k + 1 < |items| && GoIn(FilesOf(items), k + 1)
    requires FilesOf(items)[k].path < FilesOf(items)[k + 1].path
    ensures FlagAt(items, k) == 48 || FlagAt(items, k) == 50 || FlagAt(items, k) == 53
    ensures FlagAt(items, k) == 48 || FlagAt(items, k) == 50 ==>
              BlockedAt(FilesOf(items), k + 1) && GetsStuck(FilesOf(items))
    ensures FlagAt(items, k) == 53 && BlockedAt(FilesOf(items), k + 1) ==>
              exists i :: 0 <= i < k && FlagAt(items, i) != 53
                          && FilesOf(items)[k].path < FilesOf(items)[i].path < FilesOf(items)[k + 1].path
  {
    hide IsArchive, FilesOf, BlockedAt, GetsStuck, GoIn;
    var files := FilesOf(items);
    forall i | 0 <= i < |items|
      ensures IsDirFile(files[i]) <==> FlagAt(items, i) == 53
      ensures FlagAt(items, i) == 48 || FlagAt(items, i) == 50 || FlagAt(items, i) == 53
    {
      ItemBlocks(tar, items, i);
    }
    PathsThere(tar, items);
    hide IsDirFile, FlagAt;
    if !IsDirFile(files[k]) {
      BelowFile(files, k);
    } else if BlockedAt(files, k + 1) {
      BelowDir(files, k);
    }
  }

  /** No path that ends as a directory has an entry that is something else. */
  predicate DirsStay(files: seq<File>) {
    forall k :: 0 <= k < |files| ==> DirStaysAt(files, k)
  }

  predicate DirStaysAt(files: seq<File>, k: nat)
    requires k < |files|
  {
    k == LastFor(files, files[k].path) && IsDirFile(files[k]) ==> LastDataFor(files, files[k].path) == |files|
  }

  lemma OrderMeans(files: seq<File>)
    requires forall f :: f in files ==> |f.path| > 0
    ensures DirsIntact(Build(files)) <==> DirsStay(files)
  {
    hide Build, LastFor, LastDataFor, IsDirFile, FirstMakesDir, DataFileFor, IsIntact;
    forall p | p in Build(files) && !DirIntact(Build(files)[p])
      ensures !DirsStay(files)
    {
      BuildMeaning(files, p);
      IntactMeans(files, p);
      assert !DirStaysAt(files, LastFor(files, p));
    }
    forall k | 0 <= k < |files| && !DirStaysAt(files, k)
      ensures files[k].path in Build(files) && !DirIntact(Build(files)[files[k].path])
    {
      BuildMeaning(files, files[k].path);
      IntactMeans(files, files[k].path);
    }
  }

  // ----- data

  /** Block `off` behind the header of item `i` is block `off` of its data. */
  lemma DataAt(tar: seq<Block>, items: seq<Item>, i: nat, off: nat)
    requires IsArchive(tar, items) && i < |items| && off < |items[i].data|
    ensures var b := FilesOf(items)[i].blknoHeader + 1 + off;
            b < |tar| && tar[b] == items[i].data[off]
  {
    hide ItemOk, Stops, FilesOf, LayAll, Text;
    LayAllPrefix(items, i);
    FilesOfAt(items, i);
    var all, pre, own := LayAll(items), LayAll(items[..i]), Lay(items[i]);
    var at := |LongBlocks(items[i])| + 1 + off;
    assert own[at] == items[i].data[off];
    assert (pre + own)[|pre| + at] == own[at];
    assert tar[..|all|][|pre| + at] == all[|pre| + at];
  }

  /** The type flag of the last item for `path`. */
  function FlagFor(items: seq<Item>, path: Path): Option<byte> {
    var i := LastFor(FilesOf(items), path);
    if i < |items| && |items[i].header| == 512 then Some(items[i].header[156]) else None
  }

  /** It is a regular file. */
  predicate RegularAt(items: seq<Item>, path: Path) {
    FlagFor(items, path) == Some(48)
  }

  /** The data the archive holds for `path` at block `off`. */
  function DataFor(items: seq<Item>, path: Path, off: nat): Option<Block> {
    var i := LastFor(FilesOf(items), path);
    if i < |items| && off < |items[i].data| then Some(items[i].data[off]) else None
  }

  lemma ItemBlocks(tar: seq<Block>, items: seq<Item>, i: nat)
    requires IsArchive(tar, items) && i < |items|
    ensures var f := FilesOf(items)[i];
            && f.Valid() && f.Blocks() == |items[i].data| && f.header == items[i].header
            && (f.header[156] == 48 || f.header[156] == 50 || f.header[156] == 53)
            && (f.header[156] == 48 ==> f.Fmt() == REG && Fill(|items[i].data|, f.FileSize()))
            && (f.header[156] == 50 ==> f.Fmt() == LNK) && (f.header[156] == 53 ==> f.Fmt() == DIR)
  {
    hide LayAll, Text, CString, Strtoull8, LongOk, ValidPath, Next, Stops;
    GetStep(tar, tar, items, i);
    FilesOfAt(items, i);
    assert items[i] in items && ItemOk(items[i]);
    FileOfWithin(items[i], |LayAll(items[..i])|);
    var f := FilesOf(items)[i];
    if f.header[156] == 48 {
      FillIs(|items[i].data|, f.FileSize());
    }
  }

  /** Where the inode of a regular file maps block `off`. */
  lemma MappedData(tar: seq<Block>, items: seq<Item>, path: Path, off: nat, n: Node)
    requires IsArchive(tar, items) && RegularAt(items, path) && EntryOk(n, EntryFor(items, path))
    ensures match LookupExt(n.exts, off)
            case Some(b) => b < |tar| && DataFor(items, path, off) == Some(tar[b])
            case None => DataFor(items, path, off) == None
  {
    hide LookupExt, EntryOk, FilesOf, IsArchive, CString, Strtoull8, File.Valid, File.Blocks, FirstMakesDir;
    var i := LastFor(FilesOf(items), path);
    ItemBlocks(tar, items, i);
    DataMapping(n, EntryFor(items, path), FilesOf(items)[i], off);
    if off < |items[i].data| {
      DataAt(tar, items, i, off);
    }
  }

  /** '0' is a regular file, '2' a symbolic link, '5' a directory; directories made on the way have mode 0755. */
  predicate KindSays(d: Dinode, flag: Option<byte>) {
    match flag
    case None => d.fmt == DIR && d.perm == 7 * 64 + 5 * 8 + 5 && d.uid == 0 && d.gid == 0
    case Some(c) => (c == 48 && d.fmt == REG) || (c == 50 && d.fmt == LNK) || (c == 53 && d.fmt == DIR)
  }

  /** What the last item for a path makes of its dinode. */
  lemma KindFrom(tar: seq<Block>, items: seq<Item>, path: Path, d: Dinode)
    requires IsArchive(tar, items) && Describes(d, EntryFor(items, path))
    ensures KindSays(d, FlagFor(items, path))
  {
    hide FilesOf, IsArchive, CString, Strtoull8, File.Valid, File.Blocks, FirstMakesDir;
    var i := LastFor(FilesOf(items), path);
    if i < |items| {
      ItemBlocks(tar, items, i);
    }
  }

  /** A regular file has the size its last item says. */
  lemma SizeFrom(tar: seq<Block>, items: seq<Item>, path: Path, d: Dinode, off: nat)
    requires IsArchive(tar, items) && Describes(d, EntryFor(items, path)) && RegularAt(items, path)
    ensures DataFor(items, path, off).Some? <==> 512 * off < d.size
  {
    hide FilesOf, IsArchive, CString, Strtoull8, File.Valid, File.Blocks, FirstMakesDir;
    var i := LastFor(FilesOf(items), path);
    ItemBlocks(tar, items, i);
  }

  /** The header of the last item for `path`. */
  predicate HeaderFor(items: seq<Item>, path: Path, u: Ustar.Header) {
    var i := LastFor(FilesOf(items), path);
    i < |items| && items[i].header == u.Bytes()
  }

  /** A dinode carries what the fields of the last header for its path say. */
  lemma DinodeSays(tar: seq<Block>, items: seq<Item>, path: Path, d: Dinode, u: Ustar.Header, a: Ustar.Attrs)
    requires IsArchive(tar, items) && Describes(d, EntryFor(items, path))
    requires HeaderFor(items, path, u) && Ustar.Says(u, a)
    ensures (u.flag == 48 ==> d.fmt == REG && d.size == a.size) && (u.flag == 53 ==> d.fmt == DIR)
    ensures u.flag == 50 ==> d.fmt == LNK && d.size == |a.target|
    ensures d.perm == a.mode - a.mode / 4096 % 16 * 4096 && d.uid == a.uid && d.gid == a.gid
    ensures d.mtime == d.atime == d.ctime == 1000000 * a.mtime
    ensures d.header < |tar| && tar[d.header] == Raw(u.Bytes())
  {
    hide FilesOf, IsArchive, CString, Strtoull8, File.Valid, File.Blocks, File.FileSize, File.Uid, File.Gid, File.Usec,
         File.Perm, File.Mode, FirstMakesDir, Ustar.Says, Ustar.Header.Bytes;
    var i := LastFor(FilesOf(items), path);
    var f := FilesOf(items)[i];
    ItemBlocks(tar, items, i);
    Ustar.HeaderSays(f, u, a);
    HeaderAt(tar, items, i);
  }

  /** An entry's header is where its inode says. */
  lemma HeaderAt(tar: seq<Block>, items: seq<Item>, i: nat)
    requires IsArchive(tar, items) && i < |items|
    ensures FilesOf(items)[i].blknoHeader < |tar| && tar[FilesOf(items)[i].blknoHeader] == Raw(items[i].header)
  {
    hide ItemOk, Stops, FilesOf, LayAll, Text, LongBlocks, PathSplit.SplitPath;
    LayAllPrefix(items, i);
    FilesOfAt(items, i);
    var all, pre, own := LayAll(items), LayAll(items[..i]), Lay(items[i]);
    var at := |LongBlocks(items[i])|;
    assert own[at] == Raw(items[i].header);
    assert (pre + own)[|pre| + at] == own[at];
    assert tar[..|all|][|pre| + at] == all[|pre| + at];
  }

  /** The data blocks of the regular files that were the first on or below their path. */
  function DataBlocks(items: seq<Item>): nat {
    if items == [] then 0
    else
      var init, last := items[..|items| - 1], items[|items| - 1];
      DataBlocks(init)
      + if |last.header| == 512 && last.header[156] == 48 && !IsAncestor(FilesOf(init), FilesOf(items)[|init|].path)
        then |last.data| else 0
  }

  lemma FilesOfInit(items: seq<Item>)
    requires items != []
    ensures FilesOf(items)[..|items| - 1] == FilesOf(items[..|items| - 1])
  {
  }

  lemma NewDataIs(before: seq<File>, item: Item, off: nat)
    requires ItemOk(item) && (forall f :: f in before ==> |f.path| > 0)
    ensures var f := FileOf(item, off);
            NewData(Build(before), f)
            == if |item.header| == 512 && item.header[156] == 48 && !IsAncestor(before, f.path) then |item.data| else 0
  {
    LastData(item, off);
    hide ItemOk, FileOf, Build, IsAncestor, LastFor, FirstMakesDir, DataFileFor, File.Blocks, File.Fmt;
    BuildMeaning(before, FileOf(item, off).path);
  }

  /** The data total of a run, said of the items alone. */
  lemma {:induction false} DataTotal(items: seq<Item>)
    requires forall i :: i in items ==> ItemOk(i)
    ensures DataSize(FilesOf(items)) == DataBlocks(items)
    ensures forall f :: f in FilesOf(items) ==> |f.path| > 0
  {
    hide ItemOk, FileOf, FilesOf, Build, IsAncestor, NewData, LayAll;
    if items != [] {
      var n := |items| - 1;
      var files := FilesOf(items);
      DataTotal(items[..n]);
      FilesOfInit(items);
      FilesOfAt(items, n);
      NewDataIs(files[..n], items[n], |LayAll(items[..n])|);
      LastData(items[n], |LayAll(items[..n])|);
      assert files == files[..n] + [files[n]];
    } else {
      assert FilesOf(items) == [];
    }
  }

  lemma LastData(item: Item, off: nat)
    requires ItemOk(item)
    ensures var f := FileOf(item, off);
            && |f.path| > 0 && f.HasHeader() && f.header == item.header && f.Blocks() == |item.data|
            && (f.Fmt() == REG <==> item.header[156] == 48)
  {
    hide Text, CString, Strtoull8, PathSplit.SplitPath;
  }

  // ----- names and links

  /** The names a listing of `path` may contain. */
  predicate Named(items: seq<Item>, path: Path, name: Name) {
    name == R.DOT || name == R.DOTDOT || Exists(items, path + [name])
  }

  /** The path is found and is a directory that was never anything else. */
  predicate IsDirAt(items: seq<Item>, path: Path) {
    Found(items, path) && IntactFor(items, path)
  }

  /** The names behind `path` whose inode is made as a directory. */
  function SubNames(items: seq<Item>, path: Path): set<Name> {
    set i | 0 <= i < |items| && |path| < |FilesOf(items)[i].path| && path <= FilesOf(items)[i].path
            && FirstMakesDir(FilesOf(items), FilesOf(items)[i].path[..|path| + 1]) :: FilesOf(items)[i].path[|path|]
  }

  /** The link count: two, and one for every subdirectory made in it; one for what was never a directory. */
  function LinksFor(items: seq<Item>, path: Path): nat {
    if path == [] || FirstMakesDir(FilesOf(items), path) then 2 + |SubNames(items, path)| else 1
  }

  lemma SubNamesMeans(items: seq<Item>, path: Path, name: Name)
    ensures name in SubNames(items, path) <==>
            Exists(items, path + [name]) && FirstMakesDir(FilesOf(items), path + [name])
  {
    hide FilesOf, FirstMakesDir;
    var p := path + [name];
    forall i | 0 <= i < |items|
      ensures p <= FilesOf(items)[i].path <==>
              && |path| < |FilesOf(items)[i].path| && path <= FilesOf(items)[i].path
              && FilesOf(items)[i].path[..|path| + 1] == p && FilesOf(items)[i].path[|path|] == name
    {
      var q := FilesOf(items)[i].path;
      if |path| < |q| && path <= q && q[|path|] == name {
        assert q[..|path| + 1] == p;
      }
    }
    if name in SubNames(items, path) {
      var i :| 0 <= i < |items| && |path| < |FilesOf(items)[i].path| && path <= FilesOf(items)[i].path
               && FirstMakesDir(FilesOf(items), FilesOf(items)[i].path[..|path| + 1])
               && FilesOf(items)[i].path[|path|] == name;
      assert FilesOf(items)[i].path[..|path| + 1] == p;
    }
  }

  lemma SubNamesAre(tar: seq<Block>, items: seq<Item>, path: Path)
    requires IsArchive(tar, items)
    ensures SubNames(items, path) == SubdirNames(Build(FilesOf(items)), path)
  {
    hide IsArchive, Build, FilesOf, Exists, EntryFor, FirstMakesDir, SubNames, SubdirNames;
    forall name
      ensures name in SubNames(items, path) <==> name in SubdirNames(Build(FilesOf(items)), path)
    {
      SubNamesMeans(items, path, name);
      TreeSays(tar, items, path + [name]);
      SubdirNamesMeans(Build(FilesOf(items)), path, name);
    }
  }

  /** No entry changes the kind of its path. */
  predicate KeepsKinds(files: seq<File>) {
    forall k :: 0 <= k < |files| ==> SameKindAt(files, k)
  }

  predicate SameKindAt(files: seq<File>, k: nat)
    requires k < |files|
  {
    var t := Build(files[..k]);
    files[k].path in t ==> (IsDirEntry(t[files[k].path]) <==> IsDirFile(files[k]))
  }

  lemma {:induction false} KindsStay(files: seq<File>, n: nat, p: Path)
    requires KeepsKinds(files) && n <= |files| && (forall f :: f in files ==> |f.path| > 0)
    ensures var t := Build(files[..n]);
            p in t ==> (MadeAsDir(t[p]) <==> IsDirEntry(t[p])) && (IsIntact(t[p]) <==> IsDirEntry(t[p]))
  {
    if n > 0 {
      KindsStay(files, n - 1, p);
      assert files[..n][..n - 1] == files[..n - 1];
      AddEntryMeaning(Build(files[..n - 1]), files[n - 1], p);
      assert SameKindAt(files, n - 1);
    }
  }

  /** Without a change of kind, a directory has two links and one more for every subdirectory it has. */
  lemma LinksPlain(tar: seq<Block>, items: seq<Item>, path: Path, name: Name)
    requires IsArchive(tar, items) && KeepsKinds(FilesOf(items)) && IsDirAt(items, path)
    ensures name in SubNames(items, path) <==> IsDirAt(items, path + [name])
  {
    hide IsArchive, Build, FilesOf, Exists, EntryFor, FirstMakesDir, SubNames, KeepsKinds;
    var p := path + [name];
    assert forall k :: 0 <= k < |path| ==> p[..k] == path[..k];
    assert p[..|path|] == path;
    SubNamesMeans(items, path, name);
    TreeSays(tar, items, p);
    PathsThere(tar, items);
    KindsStay(FilesOf(items), |items|, p);
    assert FilesOf(items)[..|items|] == FilesOf(items);
  }
}
