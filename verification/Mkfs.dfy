/** The whole run: archive in, image out (cmd_c++/mkfs_tarfs.cc), and what can be read back from the image. */
module Mkfs {
  import opened Meta
  import opened TarFile
  import opened Parser
  import opened Volume
  import opened Nodes
  import opened Tree
  import opened Maker

  /** What is there on the way of entry `k` when its turn comes are intact directories. */
  predicate PassesAt(files: seq<File>, k: nat)
    requires k < |files|
  {
    Passes(Build(files[..k]), files[k].path)
  }

  /** Its way ends at something that is no directory. */
  predicate BlockedAt(files: seq<File>, k: nat)
    requires k < |files|
  {
    Blocked(Build(files[..k]), files[k].path)
  }

  /** Its way leads through a directory that was something else. */
  predicate StraysAt(files: seq<File>, k: nat)
    requires k < |files|
  {
    Strays(Build(files[..k]), files[k].path)
  }

  /** The first `n` entries can all be added. */
  predicate GoIn(files: seq<File>, n: nat)
    requires n <= |files|
  {
    forall k :: 0 <= k < n ==> PassesAt(files, k)
  }

  predicate AllGoIn(files: seq<File>) {
    GoIn(files, |files|)
  }

  /** The first entry that cannot be added is blocked. */
  predicate GetsStuck(files: seq<File>) {
    exists k :: 0 <= k < |files| && GoIn(files, k) && BlockedAt(files, k)
  }

  /** The first entry that cannot be added leads through a directory that was something else. */
  predicate GoesAstray(files: seq<File>) {
    exists k :: 0 <= k < |files| && GoIn(files, k) && StraysAt(files, k)
  }

  lemma OneWayAt(files: seq<File>, k: nat)
    requires k < |files|
    ensures PassesAt(files, k) || BlockedAt(files, k) || StraysAt(files, k)
    ensures !(PassesAt(files, k) && (BlockedAt(files, k) || StraysAt(files, k)))
    ensures !(BlockedAt(files, k) && StraysAt(files, k))
  {
    hide Build;
    OneWay(Build(files[..k]), files[k].path, 0);
  }

  /** A list of entries has exactly one of the three fates. */
  lemma {:induction false} OneFate(files: seq<File>, n: nat)
    requires n <= |files| && GoIn(files, n)
    ensures AllGoIn(files) || GetsStuck(files) || GoesAstray(files)
    ensures !(AllGoIn(files) && GetsStuck(files)) && !(AllGoIn(files) && GoesAstray(files))
    ensures !(GetsStuck(files) && GoesAstray(files))
    decreases |files| - n
  {
    hide PassesAt, BlockedAt, StraysAt;
    forall k | 0 <= k < |files|
      ensures PassesAt(files, k) || BlockedAt(files, k) || StraysAt(files, k)
      ensures !(PassesAt(files, k) && (BlockedAt(files, k) || StraysAt(files, k)))
      ensures !(BlockedAt(files, k) && StraysAt(files, k))
    {
      OneWayAt(files, k);
    }
    if n < |files| && PassesAt(files, n) {
      OneFate(files, n + 1);
    }
  }

  /** Path components in all. */
  function Depth(files: seq<File>): nat {
    if files == [] then 0 else Depth(files[..|files| - 1]) + |files[|files| - 1].path|
  }

  /** Data blocks an entry adds to the total: those of a regular file, when its inode is created. */
  function NewData(t: Fs, f: File): nat {
    if f.HasHeader() && f.Fmt() == REG && f.path !in t then f.Blocks() else 0
  }

  function DataSize(files: seq<File>): nat {
    if files == [] then 0
    else DataSize(files[..|files| - 1]) + NewData(Build(files[..|files| - 1]), files[|files| - 1])
  }

  /** What mkfs needs of its input: a terminated archive and room behind it. */
  ghost predicate Mountable(tar: seq<Block>, items: seq<Item>) {
    && IsArchive(tar, items)
    && Room(|tar|, 6 + 6 * Depth(FilesOf(items)))
  }

  /**
    * NotFollowed is no outcome of the source: where an entry leads through a directory that was something else, the
    * source reads archive bytes as directory records, and the model stops.
    */
  datatype Outcome = NotMade | RolledBack | NotFollowed | Made

  /** The outcome, from the archive alone. */
  function Fate(tar: seq<Block>, files: seq<File>): Outcome {
    if HasSuper(tar) then NotMade
    else if AllGoIn(files) then Made
    else if GetsStuck(files) then RolledBack
    else NotFollowed
  }

  lemma {:induction false} DepthPrefix(files: seq<File>, k: nat)
    requires k < |files|
    ensures Depth(files[..k]) + |files[k].path| <= Depth(files)
  {
    if k < |files| - 1 {
      var init := files[..|files| - 1];
      DepthPrefix(init, k);
      assert init[..k] == files[..k];
    } else {
      assert files[..k] == files[..|files| - 1];
    }
  }

  /** Entry `k` after the entries before it. */
  lemma {:induction false} Prefix(files: seq<File>, k: nat)
    requires k < |files| && |files[k].path| > 0
    ensures Build(files[..k + 1]) == AddEntry(Build(files[..k]), files[k])
    ensures DataSize(files[..k + 1]) == DataSize(files[..k]) + NewData(Build(files[..k]), files[k])
    ensures Depth(files[..k + 1]) == Depth(files[..k]) + |files[k].path|
  {
    assert files[..k + 1][..k] == files[..k];
  }

  /** What the k-th call of get returns, on a file that starts with the archive. */
  lemma {:induction false} GetStep(blocks: seq<Block>, tar: seq<Block>, items: seq<Item>, k: nat)
    requires IsArchive(tar, items) && tar <= blocks && k <= |items|
    ensures k == |items| ==> Next(blocks, |LayAll(items[..k])|) == End
    ensures k < |items| ==>
              && FilesOf(items)[k].Valid() && FilesOf(items)[k].Within(|tar|)
              && Next(blocks, |LayAll(items[..k])|) == Entry(FilesOf(items)[k], |LayAll(items[..k + 1])|)
  {
    hide ItemForm, FileOf, Next, LayAll, Stops, Lay, Text;
    assert k == |items| ==> items[..k] == items;
    WalkStep(blocks, tar, items, k);
    if k < |items| {
      assert ItemOk(items[k]);
      FilesOfAt(items, k);
      FileOfValid(items[k], |LayAll(items[..k])|);
      FileOfWithin(items[k], |LayAll(items[..k])|);
      LayAllPrefix(items, k);
    }
  }

  lemma TarKept(m: FsMaker)
    requires m.Inv({FREE_INO, ROOT_INO})
    ensures m.io.tar <= m.io.blocks
  {
  }

  /** One archive entry is added. */
  method AddNext(m: FsMaker, tar: seq<Block>, ghost items: seq<Item>, f: File, ghost k: nat) returns (r: Added)
    requires Mountable(tar, items) && k < |items| && f == FilesOf(items)[k] && f.Valid() && f.Within(|tar|)
    requires m.io.tar == tar && m.io.orgblks == |tar|
    requires m.tree == Build(FilesOf(items)[..k]) && m.fac.totalDataSize == DataSize(FilesOf(items)[..k])
    requires |m.io.blocks| <= |tar| + (6 + 6 * Depth(FilesOf(items)[..k])) * BULKS
    requires m.Inv({FREE_INO, ROOT_INO})
    modifies m`index, m`tree, m.io, m.dirmgr, m.iexmgr, m.dinodemgr, m.fac, m.fac.freeInode, m.root
    ensures r == Stuck <==> BlockedAt(FilesOf(items), k)
    ensures r == Astray <==> StraysAt(FilesOf(items), k)
    ensures r == Stuck ==> m.io.blocks == tar
    ensures r == Astray ==> tar <= m.io.blocks
    ensures r == Done ==>
              && m.tree == Build(FilesOf(items)[..k + 1]) && m.fac.totalDataSize == DataSize(FilesOf(items)[..k + 1])
              && |m.io.blocks| <= |tar| + (6 + 6 * Depth(FilesOf(items)[..k + 1])) * BULKS
    ensures m.fac.freeInode == old(m.fac.freeInode)
    ensures r == Done ==> m.Inv({FREE_INO, ROOT_INO})
  {
    hide FsMaker.Inv, IsArchive, Build, DataSize, Depth, AddEntry, Blocked, Strays, FilesOf;
    DepthPrefix(FilesOf(items), k);
    Prefix(FilesOf(items), k);
    r := m.Add(f);
  }

  /** The next call of get, on the file as it is by now. */
  method GetNext(m: FsMaker, parser: Parser, tar: seq<Block>, ghost items: seq<Item>, ghost k: nat)
    returns (file: Option<File>)
    requires Mountable(tar, items) && k <= |items| && m.io.tar == tar
    requires parser.curoff == |LayAll(items[..k])|
    requires m.Inv({FREE_INO, ROOT_INO})
    modifies parser
    ensures file == if k < |items| then Some(FilesOf(items)[k]) else None
    ensures k < |items| ==>
              && parser.curoff == |LayAll(items[..k + 1])|
              && FilesOf(items)[k].Valid() && FilesOf(items)[k].Within(|tar|)
  {
    hide FsMaker.Inv, IsArchive, FilesOf, Next, LayAll;
    TarKept(m);
    GetStep(m.io.blocks, tar, items, k);
    file := parser.Get(m.io);
  }

  /** The loop of mkfs_tarfs: entries are read from the file that is being extended. */
  method AddAll(m: FsMaker, tar: seq<Block>, ghost items: seq<Item>) returns (r: Added)
    requires Mountable(tar, items) && m.io.tar == tar && m.io.orgblks == |tar|
    requires m.tree == EMPTYFS && m.fac.totalDataSize == 0
    requires |m.io.blocks| <= |tar| + 6 * BULKS
    requires m.Inv({FREE_INO, ROOT_INO})
    modifies m`index, m`tree, m.io, m.dirmgr, m.iexmgr, m.dinodemgr, m.fac, m.fac.freeInode, m.root
    ensures r == Done <==> AllGoIn(FilesOf(items))
    ensures r == Stuck <==> GetsStuck(FilesOf(items))
    ensures r == Astray <==> GoesAstray(FilesOf(items))
    ensures r == Stuck ==> m.io.blocks == tar
    ensures r == Astray ==> tar <= m.io.blocks
    ensures r == Done ==> m.tree == Build(FilesOf(items)) && m.fac.totalDataSize == DataSize(FilesOf(items))
    ensures r == Done ==> m.Inv({FREE_INO, ROOT_INO})
  {
    hide FsMaker.Inv, Mountable, Build, DataSize, Depth, FilesOf, LayAll, PassesAt, BlockedAt, StraysAt;
    ghost var files := FilesOf(items);
    ghost var k := 0;
    Start(files, items);
    OneFate(files, 0);
    var parser := new Parser();
    var file := GetNext(m, parser, tar, items, 0);
    while file.Some?
      invariant k <= |items| && m.fac.freeInode == old(m.fac.freeInode)
      invariant file == if k < |items| then Some(files[k]) else None
      invariant k < |items| ==>
                  parser.curoff == |LayAll(items[..k + 1])| && files[k].Valid() && files[k].Within(|tar|)
      invariant m.tree == Build(files[..k]) && m.fac.totalDataSize == DataSize(files[..k])
      invariant |m.io.blocks| <= |tar| + (6 + 6 * Depth(files[..k])) * BULKS
      invariant GoIn(files, k)
      invariant m.Inv({FREE_INO, ROOT_INO})
      decreases |items| - k
    {
      OneWayAt(files, k);
      r := AddNext(m, tar, items, file.value, k);
      if r != Done {
        return;
      }
      k := k + 1;
      file := GetNext(m, parser, tar, items, k);
    }
    assert files[..k] == files;
    r := Done;
  }

  lemma Start(files: seq<File>, items: seq<Item>)
    ensures Build(files[..0]) == EMPTYFS && DataSize(files[..0]) == 0 && Depth(files[..0]) == 0
    ensures |LayAll(items[..0])| == 0
  {
  }

  /**
    * mkfs_tarfs: the archive is walked while its metadata is appended behind it. The outcome is known from the
    * archive alone, and the archive stays in front of the file.
    */
  method MkfsImage(tar: seq<Block>, ghost items: seq<Item>)
    returns (out: Outcome, img: seq<Block>, ghost v: Vol, ghost nodes: seq<Node>, ghost index: map<Path, nat>)
    requires Mountable(tar, items)
    ensures out == Fate(tar, FilesOf(items))
    ensures out == NotFollowed ==> GoesAstray(FilesOf(items)) && tar <= img
    ensures out == NotMade || out == RolledBack ==> img == tar
    ensures out == Made ==>
              IsImage(img, tar, v, nodes, index, Build(FilesOf(items)), DataSize(FilesOf(items)))
  {
    hide FsMaker.Inv, Build, DataSize, Depth, FilesOf, Next, LayAll, AllGoIn, GetsStuck, GoesAstray, IsImage;
    v, nodes, index := Vol([], [], [], 0), [], map[];
    OneFate(FilesOf(items), 0);
    var m := Create(tar);
    if m == null {
      return NotMade, tar, v, nodes, index;
    }
    var r := AddAll(m, tar, items);
    img := m.io.blocks;
    match r {
      case Stuck =>
        out := RolledBack;
      case Astray =>
        out := NotFollowed;
      case Done =>
        nodes, index := m.fac.nodes, m.index;
        v := m.Complete();
        out, img := Made, m.io.blocks;
    }
  }
}
