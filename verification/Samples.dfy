/** Concrete archives at the edges of what the builder does. */
module Samples {
  import opened Meta
  import opened Bytes
  import opened TarFile
  import opened PathSplit
  import opened Parser
  import opened Extents
  import opened Nodes
  import opened Inodes
  import opened Dirs
  import opened Factory
  import opened Tree
  import opened Maker
  import opened Mkfs
  import opened Meaning
  import Ustar
  import R = Records

  function Zeros(n: nat): (r: seq<byte>)
    ensures |r| == n
    ensures forall i :: 0 <= i < n ==> r[i] == 0
  {
    seq(n, _ => 0)
  }

  /** A number field of `w` bytes: digits and a NUL. */
  function Field(v: nat, w: nat): (r: seq<byte>)
    requires w > 0
    ensures |r| == w
  {
    Octal(v, w - 1) + [0]
  }

  /** A header with a short name, a size and a type flag; everything else is zero. */
  function Fields(name: seq<byte>, size: nat, flag: byte): Ustar.Header
    requires |name| < 100
  {
    Ustar.Header(name + Zeros(100 - |name|), Field(0, 8), Field(0, 8), Field(0, 8), Field(size, 12), Field(0, 12),
                 Zeros(8), flag, Zeros(100), Zeros(255))
  }

  function Header(name: seq<byte>, size: nat, flag: byte): seq<byte>
    requires |name| < 100
  {
    Fields(name, size, flag).Bytes()
  }

  lemma FieldIs(v: nat, w: nat)
    requires 1 < w && v < Pow8(w - 1)
    ensures Ustar.Number(Field(v, w), v)
  {
    assert Ustar.NumberIn(Field(v, w), v, 0, w - 1);
  }

  lemma FieldsSay(name: seq<byte>, size: nat, flag: byte)
    requires 0 < |name| < 100 && 0 !in name && size <= 0x8000
    ensures Ustar.Says(Fields(name, size, flag), Ustar.Attrs(0, 0, 0, size, 0, []))
    ensures Ustar.Ended(Fields(name, size, flag).name, name) && Fields(name, size, flag).flag == flag
  {
    PowPositive(7);
    PowPositive(11);
    assert Pow8(3) == 512 && Pow8(6) == 512 * 512;
    assert Pow8(8) == 64 * Pow8(6) && Pow8(10) == 64 * Pow8(8) && Pow8(11) == 8 * Pow8(10);
    hide Octal, Pow8, Ustar.Number, Field;
    FieldIs(0, 8);
    FieldIs(0, 12);
    FieldIs(size, 12);
  }

  lemma HeaderReads(name: seq<byte>, size: nat, flag: byte)
    requires 0 < |name| < 100 && 0 !in name && size <= 0x8000
    ensures var h := Header(name, size, flag);
            |h| == 512 && h[0] != 0 && h[156] == flag && Strtoull8(h[124..136]) == size
  {
    var u := Fields(name, size, flag);
    FieldsSay(name, size, flag);
    hide Fields, Ustar.Number, Ustar.Header.Bytes, Strtoull8, Octal;
    Ustar.Sections(u);
    Ustar.NumbersRead(u, Ustar.Attrs(0, 0, 0, size, 0, []));
    Ustar.NameRead(u, name);
  }

  // ----- a long name that does not fit

  const LONG: seq<byte> := Header([120], 4608, LONGNAME)

  /** Nine blocks of long-name text do not fit the path buffer: the record has no meaning. */
  lemma LongNameOverruns(text: seq<Block>, after: seq<byte>)
    requires |text| == 9 && (forall b :: b in text ==> IsTar(b)) && |after| == TAR_BLOCKSIZE
    ensures Next([Raw(LONG)] + text + [Raw(after)], 0) == Foreign
  {
    hide Strtoull8, Next, Header, Concat;
    HeaderReads([120], 4608, LONGNAME);
    var blocks := [Raw(LONG)] + text + [Raw(after)];
    assert blocks[0..11] == blocks;
    LongMeaning(blocks, 0, LONG, text, after);
  }

  lemma ConcatOne(text: seq<byte>)
    requires |text| == TAR_BLOCKSIZE
    ensures Concat([Raw(text)]) == text
  {
    assert Concat([]) == [];
  }

  /** One block of text without a NUL: the string has no end. */
  lemma LongNameUnended(text: seq<byte>, after: seq<byte>)
    requires |text| == TAR_BLOCKSIZE && 0 !in text && |after| == TAR_BLOCKSIZE
    ensures Next([Raw(Header([120], 512, LONGNAME)), Raw(text), Raw(after)], 0) == Foreign
  {
    hide Strtoull8, Next, Header, Concat;
    var h := Header([120], 512, LONGNAME);
    HeaderReads([120], 512, LONGNAME);
    var blocks := [Raw(h), Raw(text), Raw(after)];
    assert blocks[0..3] == [Raw(h)] + [Raw(text)] + [Raw(after)];
    ConcatOne(text);
    LongMeaning(blocks, 0, h, [Raw(text)], after);
  }

  // ----- archives of short items

  function Archive(items: seq<Item>): seq<Block> {
    LayAll(items) + [Raw(Zeros(512))]
  }

  /** An entry without a long name. */
  function Short(name: seq<byte>, size: nat, flag: byte, data: seq<Block>): Item
    requires |name| < 100
  {
    Item(None, Header(name, size, flag), data)
  }

  lemma {:induction false} SmallLay(items: seq<Item>)
    requires forall i :: i in items ==> |Lay(i)| <= 2
    ensures |LayAll(items)| <= 2 * |items|
  {
    hide Lay;
    if items != [] {
      SmallLay(items[..|items| - 1]);
    }
  }

  lemma {:induction false} SmallDepth(files: seq<File>)
    requires forall f :: f in files ==> |f.path| <= 2
    ensures Depth(files) <= 2 * |files|
  {
    if files != [] {
      SmallDepth(files[..|files| - 1]);
    }
  }

  /** A few short entries are an archive that can be built on. */
  lemma IsSample(items: seq<Item>)
    requires |items| <= 3 && forall i :: i in items ==> ItemOk(i) && |Lay(i)| <= 2
    requires forall f :: f in FilesOf(items) ==> |f.path| <= 2
    ensures Mountable(Archive(items), items) && !HasSuper(Archive(items))
  {
    hide ItemOk, Lay, LayAll, FilesOf, Depth, HasMagic, IsArchive, Zeros;
    SmallLay(items);
    SmallDepth(FilesOf(items));
    Terminated(items);
    NoMagic();
    assert |Archive(items)| <= 7 && Depth(FilesOf(items)) <= 6;
  }

  lemma Terminated(items: seq<Item>)
    requires forall i :: i in items ==> ItemOk(i)
    ensures IsArchive(Archive(items), items)
  {
    hide ItemOk, LayAll, PathlessAt;
    var n := |LayAll(items)|;
    assert Archive(items)[..n] == LayAll(items) && Archive(items)[n] == Raw(Zeros(512));
  }

  lemma NoMagic()
    ensures !HasMagic(Raw(Zeros(512)))
  {
    var s := Zeros(512)[..8];
    hide Zeros;
    assert s[1..] == Zeros(7) && Zeros(7)[1..] == Zeros(6) && Zeros(6)[1..] == Zeros(5) && Zeros(5)[1..] == Zeros(4);
    assert Zeros(4)[1..] == Zeros(3) && Zeros(3)[1..] == Zeros(2) && Zeros(2)[1..] == Zeros(1) && Zeros(1)[1..] == [];
    assert Decode(s) == 0;
  }

  predicate IsEntry(f: File, path: Path, size: nat, flag: byte, at: nat, n: nat) {
    f.path == path && f.HasHeader() && f.Typeflag() == flag && f.FileSize() == size && f.addr == Ext(0, at, n)
  }

  /** The item stands for such an entry, wherever it is. */
  ghost predicate Stands(i: Item, path: Path, size: nat, flag: byte, n: nat) {
    && ItemOk(i) && |Lay(i)| == 1 + n
    && forall off: nat :: IsEntry(FileOf(i, off), path, size, flag, off + 1, n)
  }

  lemma ShortIsOk(name: seq<byte>, size: nat, flag: byte, data: seq<Block>, path: Path)
    requires 0 < |name| < 100 && 0 !in name && size <= 0x8000 && (flag == REGTYPE || flag == DIRTYPE)
    requires SplitPath(name) == Some(path) && ValidPath(path)
    requires if flag == REGTYPE then Fill(|data|, size) else data == []
    ensures Stands(Short(name, size, flag, data), path, size, flag, |data|)
  {
    hide Strtoull8, CString, SplitPath, Fields, ItemForm, Ustar.Says, Ustar.Header.Bytes, Ustar.Ended;
    HeaderReads(name, size, flag);
    FieldsSay(name, size, flag);
    Ustar.Written(Fields(name, size, flag), Ustar.Attrs(0, 0, 0, size, 0, []), name, path, data);
    hide Header;
  }

  lemma Listed(items: seq<Item>, k: nat, path: Path, size: nat, flag: byte, n: nat)
    requires k < |items| && Stands(items[k], path, size, flag, n)
    ensures IsEntry(FilesOf(items)[k], path, size, flag, |LayAll(items[..k])| + 1, n) && FilesOf(items)[k].path == path
    ensures flag == REGTYPE || flag == DIRTYPE ==> (IsDirFile(FilesOf(items)[k]) <==> flag == DIRTYPE)
  {
    hide ItemOk, LayAll, FilesOf, FileOf, File.FileSize;
    FilesOfAt(items, k);
  }

  // ----- one path, two kinds

  const A: Path := [[97]]
  const AB: Path := [[97], [98]]
  const FILE: Item := Short([97], 512, REGTYPE, [Raw(Zeros(512))])
  const DIRECTORY: Item := Short([97], 0, DIRTYPE, [])

  lemma SplitsA()
    ensures SplitPath([97]) == Some(A) && SplitPath([97, 47, 98]) == Some(AB)
  {
    SplitInvertsJoin(A, false, 0);
    assert [] + Join(A) + Slashes(0) == [97];
    SplitInvertsJoin(AB, false, 0);
    assert AB[1..] == [[98]];
    assert [] + Join(AB) + Slashes(0) == [97, 47, 98];
  }

  lemma TwoItems()
    ensures Stands(FILE, A, 512, REGTYPE, 1) && Stands(DIRECTORY, A, 0, DIRTYPE, 0)
  {
    hide SplitPath, Stands;
    SplitsA();
    ShortIsOk([97], 512, REGTYPE, [Raw(Zeros(512))], A);
    ShortIsOk([97], 0, DIRTYPE, [], A);
  }

  lemma Small(items: seq<Item>)
    requires forall i :: i in items ==> i == FILE || i == DIRECTORY
    ensures forall i :: i in items ==> ItemOk(i) && |Lay(i)| <= 2
  {
    TwoItems();
    hide Header, ItemOk, Lay;
  }

  lemma OneListed(items: seq<Item>, k: nat)
    requires k < |items| && (items[k] == FILE || items[k] == DIRECTORY)
    ensures FilesOf(items)[k].path == A && (IsDirFile(FilesOf(items)[k]) <==> items[k] == DIRECTORY)
  {
    TwoItems();
    assert FILE.data != DIRECTORY.data;
    hide Header, FilesOf, LayAll, IsDirFile, Stands, IsEntry;
    if items[k] == FILE {
      Listed(items, k, A, 512, REGTYPE, 1);
    } else {
      Listed(items, k, A, 0, DIRTYPE, 0);
    }
  }

  /** Entries for one path all go in. */
  lemma OnePath(items: seq<Item>)
    requires 0 < |items| <= 3 && forall i :: i in items ==> i == FILE || i == DIRECTORY
    ensures var files := FilesOf(items);
            && Mountable(Archive(items), items) && !HasSuper(Archive(items)) && AllGoIn(files)
            && forall k :: 0 <= k < |items| ==> files[k].path == A && (IsDirFile(files[k]) <==> items[k] == DIRECTORY)
  {
    hide Header, Short, FilesOf, Lay, LayAll, Archive, Mountable, HasSuper, IsDirFile, ItemOk;
    Small(items);
    forall k | 0 <= k < |items|
      ensures FilesOf(items)[k].path == A && (IsDirFile(FilesOf(items)[k]) <==> items[k] == DIRECTORY)
    {
      assert items[k] in items;
      OneListed(items, k);
    }
    IsSample(items);
    hide AllGoIn;
    AllGoInMeans(FilesOf(items));
  }

  /**
    * A regular file, then a directory at the same path: the image is made, and the path ends as a directory whose
    * records would be the data of the file.
    */
  lemma FileThenDirectory()
    ensures var items := [FILE, DIRECTORY];
            && Mountable(Archive(items), items) && Fate(Archive(items), FilesOf(items)) == Made
            && !DirsStay(FilesOf(items)) && Found(items, A) && AstrayAt(items, A, 1)
  {
    hide Header, FilesOf, Mountable, HasSuper, AllGoIn, IsDirFile;
    var items := [FILE, DIRECTORY];
    OnePath(items);
    var files := FilesOf(items);
    LastOfTwo(files);
    assert !DirStaysAt(files, 1);
    RootOnly(files);
    assert files[0].path == A;
  }

  lemma RootOnly(files: seq<File>)
    requires forall k :: 0 <= k < |files| ==> files[k].path == A
    ensures LastDataFor(files, []) == |files| && LastFor(files, []) == |files|
  {
  }

  /** With the file once more behind the directory, everything is in order again. */
  lemma FileDirectoryFile()
    ensures var items := [FILE, DIRECTORY, FILE];
            && Mountable(Archive(items), items) && Fate(Archive(items), FilesOf(items)) == Made
            && DirsStay(FilesOf(items))
  {
    hide Header, FilesOf, Mountable, HasSuper, AllGoIn, IsDirFile;
    var items := [FILE, DIRECTORY, FILE];
    OnePath(items);
    var files := FilesOf(items);
    assert files[2].path == A;
    assert LastFor(files, A) == 2;
  }

  /**
    * A directory, then a regular file at the same path: the image is made, but the root keeps a link for a
    * subdirectory it no longer has.
    */
  lemma DirectoryThenFile()
    ensures var items := [DIRECTORY, FILE];
            && Mountable(Archive(items), items) && Fate(Archive(items), FilesOf(items)) == Made
            && !IsDirAt(items, A) && LinksFor(items, []) == 3
  {
    hide Header, FilesOf, Mountable, HasSuper, AllGoIn, IsDirFile;
    var items := [DIRECTORY, FILE];
    OnePath(items);
    var files := FilesOf(items);
    LastOfTwo(files);
    assert FirstMakesDir(files, A);
    OneName(items);
  }

  lemma LastOfTwo(files: seq<File>)
    requires |files| == 2 && files[0].path == A && files[1].path == A && IsDirFile(files[0]) != IsDirFile(files[1])
    ensures LastFor(files, A) == 1 && FirstFor(files, A) == 0
    ensures LastDataFor(files, A) == if IsDirFile(files[0]) then 1 else 0
  {
    hide IsDirFile;
    assert files[0].path == A && files[1].path == A;
  }

  lemma OneName(items: seq<Item>)
    requires |items| == 2 && (forall k :: 0 <= k < 2 ==> FilesOf(items)[k].path == A)
    requires FirstMakesDir(FilesOf(items), A)
    ensures SubNames(items, []) == {A[0]}
  {
    hide FirstMakesDir, FilesOf;
    var files := FilesOf(items);
    assert files[0].path == A && files[1].path == A;
    assert A[..1] == A;
  }

  // ----- an entry below such a directory

  /** A block that reads as one dead record. */
  const RECORDS: seq<byte> := Encode(TARBLK_NONE, 8) + Encode(512, 2) + Zeros(502)
  const DEAD: R.Rec := R.Rec(TARBLK_NONE, 512, [], 0)

  /** A regular file with that data, a directory at its path, a file below. */
  const BELOW: seq<Item> := [
    Short([97], 512, REGTYPE, [Raw(RECORDS)]), DIRECTORY, Short([97, 47, 98], 0, REGTYPE, [])]

  lemma DeadStored()
    ensures R.RecAt(RECORDS, 0, DEAD)
  {
    RoundTrip64(TARBLK_NONE);
    RoundTrip16(512);
    assert Decode([0, 0]) == 0 by {
      assert [0, 0][1..] == [0] && [0][1..] == [];
    }
    hide Encode, Decode;
    assert RECORDS[0..8] == Encode(TARBLK_NONE, 8) && RECORDS[8..10] == Encode(512, 2);
    assert RECORDS[10..12] == [0, 0] && RECORDS[13..13] == [];
  }

  lemma RecordsRead()
    ensures R.Encodes([RECORDS], [DEAD])
    ensures R.FindRoom([DEAD], DirentSize(1)) == 0 && R.Lookup([DEAD], [98]) == None
  {
    DeadStored();
    hide R.RecAt, Encode;
    assert R.Offset([DEAD], 0) == 0 && R.Offset([DEAD], 1) == 512;
    assert R.Fits([DEAD], 0) && R.Stored([RECORDS], [DEAD], 0);
    assert [DEAD][..0] == [];
  }

  lemma BelowItems()
    ensures Stands(BELOW[0], A, 512, REGTYPE, 1) && Stands(BELOW[1], A, 0, DIRTYPE, 0)
    ensures Stands(BELOW[2], AB, 0, REGTYPE, 0)
  {
    hide SplitPath, Stands;
    SplitsA();
    TwoItems();
    ShortIsOk([97], 512, REGTYPE, [Raw(RECORDS)], A);
    ShortIsOk([97, 47, 98], 0, REGTYPE, [], AB);
  }

  lemma BelowFiles()
    ensures var files := FilesOf(BELOW);
            && IsEntry(files[0], A, 512, REGTYPE, 1, 1) && files[0].path == A && !IsDirFile(files[0])
            && files[1].path == A && IsDirFile(files[1])
            && files[2].path == AB && !IsDirFile(files[2])
  {
    BelowItems();
    hide Header, Short, FilesOf, IsDirFile, Stands;
    Listed(BELOW, 0, A, 512, REGTYPE, 1);
    Listed(BELOW, 1, A, 0, DIRTYPE, 0);
    Listed(BELOW, 2, AB, 0, REGTYPE, 0);
  }

  lemma BelowSample()
    ensures Mountable(Archive(BELOW), BELOW) && !HasSuper(Archive(BELOW))
  {
    BelowItems();
    BelowFiles();
    hide Header, Short, FilesOf, IsDirFile, Lay, ItemOk, Archive, Mountable, HasSuper, IsEntry;
    var files := FilesOf(BELOW);
    forall i | i in BELOW
      ensures ItemOk(i) && |Lay(i)| <= 2
    {
      assert i == BELOW[0] || i == BELOW[1] || i == BELOW[2];
    }
    forall f | f in files
      ensures |f.path| <= 2
    {
      assert f == files[0] || f == files[1] || f == files[2];
    }
    IsSample(BELOW);
  }

  lemma ThirdStrays(files: seq<File>)
    requires |files| == 3 && files[0].path == files[1].path == A && files[2].path == AB
    requires !IsDirFile(files[0]) && IsDirFile(files[1])
    ensures GoesAstray(files)
  {
    hide IsDirFile, PassesAt, StraysAt, LastFor, LastDataFor;
    assert forall f :: f in files ==> f == files[0] || f == files[1] || f == files[2];
    PassesMeans(files, 0);
    PassesMeans(files, 1);
    StraysMeans(files, 2);
    LastOfTwo(files[..2]);
    assert AB[..1] == A;
    assert EndsAt(files, 2, 1);
  }

  /** The entry leads through a directory that was a file: the run is not followed. */
  lemma BelowDirectory()
    ensures Mountable(Archive(BELOW), BELOW) && Fate(Archive(BELOW), FilesOf(BELOW)) == NotFollowed
    ensures GoesAstray(FilesOf(BELOW))
  {
    hide FilesOf, Archive, Mountable, HasSuper, IsEntry, GoesAstray, IsDirFile, AllGoIn, GetsStuck;
    BelowSample();
    BelowFiles();
    ThirdStrays(FilesOf(BELOW));
    OneFate(FilesOf(BELOW), 0);
  }

  /** The tree after the first two entries. */
  lemma FirstTwo(f: File, g: File)
    requires f.path == A && g.path == A && !IsDirFile(f) && IsDirFile(g)
    ensures AddEntry(EMPTYFS, f) == EMPTYFS[A := NewEntry(f)]
    ensures AddEntry(AddEntry(EMPTYFS, f), g) == EMPTYFS[A := Given(g, false, Some(f))]
    ensures forall t :: Passes(t, A)
  {
    hide IsDirFile;
    assert WithDirs(EMPTYFS, A, 0) == EMPTYFS;
    assert WithDirs(AddEntry(EMPTYFS, f), A, 0) == AddEntry(EMPTYFS, f);
  }

  lemma BelowSmall()
    ensures 0 < |Archive(BELOW)| <= 7
  {
    BelowItems();
    hide Header, Short, Lay, LayAll, ItemOk, IsEntry;
    forall i | i in BELOW
      ensures |Lay(i)| <= 2
    {
      assert i == BELOW[0] || i == BELOW[1] || i == BELOW[2];
    }
    SmallLay(BELOW);
  }

  lemma BelowValid(k: nat)
    requires k < 3
    ensures !HasSuper(Archive(BELOW)) && 0 < |Archive(BELOW)| <= 7
    ensures FilesOf(BELOW)[k].Valid() && FilesOf(BELOW)[k].Within(|Archive(BELOW)|)
    ensures 0 < |FilesOf(BELOW)[k].path| <= 2
  {
    hide Header, Short, FilesOf, IsDirFile, LayAll, HasSuper, IsEntry, IsArchive, Archive, Next, ItemOk;
    BelowFiles();
    BelowSample();
    BelowSmall();
    GetStep(Archive(BELOW), Archive(BELOW), BELOW, k);
    assert k == 0 || k == 1 || k == 2;
  }

  /** The builder after the first two entries. */
  method TwoAdded() returns (m: FsMaker)
    ensures fresh(m) && fresh({m.io, m.dirmgr, m.iexmgr, m.dinodemgr, m.fac, m.fac.freeInode, m.root})
    ensures m.io.tar == Archive(BELOW) && m.io.orgblks == |m.io.tar| && Room(|m.io.blocks|, 6)
    ensures m.tree == EMPTYFS[A := Given(FilesOf(BELOW)[1], false, Some(FilesOf(BELOW)[0]))]
    ensures m.Inv({FREE_INO, ROOT_INO})
  {
    hide Archive, FilesOf, FsMaker.Inv, HasSuper, AddEntry, IsEntry, File.Valid, Blocked, Strays, IsDirFile;
    BelowFiles();
    BelowValid(0);
    BelowValid(1);
    var tar, files := Archive(BELOW), FilesOf(BELOW);
    FirstTwo(files[0], files[1]);
    m := Create(tar);
    PathA(m.tree);
    var r := m.Add(files[0]);
    PathA(m.tree);
    r := m.Add(files[1]);
  }

  lemma PathA(t: Fs)
    ensures !Blocked(t, A) && !Strays(t, A)
  {
  }

  /** The third entry up to where the directory on its way is found. */
  method UpToDirectory() returns (m: FsMaker, dir: Inode)
    ensures fresh(m) && fresh({m.io, m.dirmgr, m.iexmgr, m.dinodemgr, m.fac, m.fac.freeInode, m.root, dir})
    ensures m.io.tar == Archive(BELOW) && m.io.orgblks == |m.io.tar| && Room(|m.io.blocks|, 6)
    ensures m.fac.Stands(dir) && dir != m.fac.freeInode && dir != m.root && dir.IsDir() && !dir.intact
    ensures ReadsAs(m.io.tar, dir, [DEAD])
    ensures m.Inv({FREE_INO, ROOT_INO})
  {
    hide Archive, FilesOf, FsMaker.Inv, ReadsAs, HasSuper, EntryOk, IsEntry, IsDirFile, File.Valid,
         InodeFactory.Stands, FsMaker.IsCwd;
    m := TwoAdded();
    BelowFiles();
    BelowValid(1);
    ghost var files := FilesOf(BELOW);
    m.RootPath();
    var found := m.LookupLast(m.root, FilesOf(BELOW)[1]);
    DirectoryReads(m.fac, found, files[0], files[1]);
    m.SyncPair(m.root, found, {FREE_INO, ROOT_INO});
    dir := found;
  }

  lemma DirectoryReads(fac: InodeFactory, dir: Inode, f: File, g: File)
    requires fac.Stands(dir) && EntryOk(fac.nodes[dir.ino], Given(g, false, Some(f))) && IsDirFile(g)
    requires IsEntry(f, A, 512, REGTYPE, 1, 1)
    ensures dir.IsDir() && !dir.intact && ReadsAs(Archive(BELOW), dir, [DEAD])
  {
    hide R.Encodes, Archive;
    RecordsRead();
    BelowData();
    assert dir.exts == [Ext(0, 1, 1)] && dir.dinode.size == 512;
    OneBlock(Archive(BELOW));
  }

  lemma OneBlock(blocks: seq<Block>)
    requires |blocks| > 1 && blocks[1] == Raw(RECORDS)
    ensures |Flat([Ext(0, 1, 1)])| == 1 && Bufs(blocks, Flat([Ext(0, 1, 1)])) == [RECORDS]
  {
    hide Encode, Zeros;
    assert [Ext(0, 1, 1)][..0] == [] && Flat([]) == [] && Flat([Ext(0, 1, 1)]) == [1];
  }

  lemma BelowData()
    ensures |Archive(BELOW)| > 1 && Archive(BELOW)[1] == Raw(RECORDS)
  {
    hide FilesOf, Archive, IsArchive, Encode, Zeros, Header, LayAll, File.FileSize;
    BelowSample();
    BelowFiles();
    BelowValid(0);
    DataAt(Archive(BELOW), BELOW, 0, 0);
  }

  /** The entry below the directory is written over the data of the file it was. */
  method ArchiveEdited() returns (tar: seq<Block>, blocks: seq<Block>)
    ensures tar == Archive(BELOW) && |blocks| >= |tar|
    ensures exists b :: 0 <= b < |tar| && BytesOf(blocks[b]) != BytesOf(tar[b])
  {
    hide Archive, FilesOf, FsMaker.Inv, ReadsAs, File.Valid;
    var m, dir := UpToDirectory();
    RecordsRead();
    BelowFiles();
    BelowValid(2);
    var file := FilesOf(BELOW)[2];
    m.LastAstray(dir, file, [DEAD]);
    tar, blocks := Archive(BELOW), m.io.blocks;
  }
}
