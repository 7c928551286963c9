/** On-disk structures, constants and size macros (include/tarfs_meta.h, cmd_c++/tarfs.h). */
module Meta {

  newtype byte = x: int | 0 <= x < 256

  type Name = seq<byte>
  type Path = seq<Name>

  datatype Option<+T> = None | Some(value: T)

  const TAR_BLOCKSIZE: nat := 512
  const TARBLK_NONE: nat := 0xFFFF_FFFF_FFFF_FFFF
  const UINT32: nat := 0x1_0000_0000
  const UINT64: nat := 0x1_0000_0000_0000_0000
  const TARSBLOCK_MAGIC: nat := 0xbeafcafe
  const MAX_INDEXT: nat := 20
  const MAX_DINODE_DIRECT: nat := 17
  const MAXNAMLEN: nat := 255
  const MAXPATHLEN: nat := 4096
  const BULKS: nat := 256
  const FREE_INO: nat := 0
  const ROOT_INO: nat := 1
  const DEFAULT_PERM: nat := 0x1ED  // 0755

  /** A run of blocks: file blocks off .. off + nblks live at blkno .. blkno + nblks. */
  datatype Ext = Ext(off: nat, blkno: nat, nblks: nat) {
    function End(): nat { blkno + nblks }
  }

  /** The format bits of di_mode; NOFMT is inode 0, whose mode word stays 0, OTHER any kind tarfs does not know. */
  datatype Ftype = NOFMT | REG | DIR | LNK | OTHER

  /** A dinode block. di_mode is kept as its format and its remaining bits, the permissions. */
  datatype Dinode = Dinode(
    fmt: Ftype, perm: nat, uid: nat, gid: nat, nlink: nat, size: nat, blocks: nat,
    atime: nat, ctime: nat, mtime: nat, header: nat,
    nExtents: nat, direct: seq<Ext>, rootIndExt: nat)

  /** An indirect extent block: `num` of the MAX_INDEXT slots of `dext` are in use. */
  datatype IndExt = IndExt(next: nat, num: nat, dext: seq<Ext>)

  datatype SBlock = SBlock(
    inodes: nat, dsize: nat, size: nat, flistDirdata: nat, flistIexdata: nat, flistDinode: nat,
    root: nat, free: nat, maxino: nat)

  /** One 512-byte block of the image. */
  datatype Block =
    | Raw(bytes: seq<byte>)
    | FreeBlk(next: nat)
    | DinodeBlk(d: Dinode)
    | IndBlk(ie: IndExt)
    | DirBlk(bytes: seq<byte>)
    | SuperBlk(sb: SBlock)

  function Min(a: nat, b: nat): nat { if a <= b then a else b }

  /** TARFS_BLOCKS: the number of blocks that hold `size` bytes, in 64-bit arithmetic. */
  function TarfsBlocks(size: nat): nat {
    (size + TAR_BLOCKSIZE - 1) % UINT64 / TAR_BLOCKSIZE
  }

  /** Rounding `size` up does not wrap around. */
  predicate NoWrap(size: nat) {
    size + TAR_BLOCKSIZE - 1 < UINT64
  }

  /** TARFS_BLOCKS is the least number of blocks that hold `size` bytes, unless rounding up wraps around. */
  lemma BlocksLeast(size: nat, n: nat)
    requires size <= 0xFFFF_FFFF_FFFF_FE00
    ensures NoWrap(size) && size <= 512 * TarfsBlocks(size) < size + 512
    ensures size <= 512 * n <==> TarfsBlocks(size) <= n
  {
  }

  lemma MulLe(a: nat, b: nat, c: nat)
    requires a <= b
    ensures c * a <= c * b
  {
  }

  lemma MulAssoc(a: nat, b: nat, c: nat)
    ensures a * (b * c) == (a * b) * c
  {
  }

  lemma Quotient(v: nat, d: nat, q: nat)
    requires 0 < d && d * q <= v < d * (q + 1)
    ensures v / d == q
  {
    if v / d > q {
      MulLe(q + 1, v / d, d);
    } else if v / d < q {
      MulLe(v / d + 1, q, d);
    }
  }

  lemma DivBounds(v: nat, d: nat)
    requires d > 0
    ensures d * (v / d) <= v < d * (v / d + 1)
  {
    assert v == d * (v / d) + v % d;
  }

  /** Dividing twice is dividing by the product. */
  lemma DivDiv(v: nat, a: nat, b: nat)
    requires a > 0 && b > 0
    ensures a * b > 0 && v / a / b == v / (a * b)
  {
    var q := v / a / b;
    DivBounds(v, a);
    DivBounds(v / a, b);
    var lo, hi := b * q, b * (q + 1);
    MulAssoc(a, b, q);
    MulAssoc(a, b, q + 1);
    MulLe(lo, v / a, a);
    MulLe(v / a + 1, hi, a);
    MulLe(1, b, a);
    Quotient(v, a * b, q);
  }

  /** DIRENT_SIZE: the bytes a record takes; d_name starts at byte 13 of a record. */
  function DirentSize(namelen: nat): nat {
    (13 + (namelen + 1) + 3) / 4 * 4
  }

  /** DIRECT_SIZE: what the free-space test charges a live record; the C struct takes 272 bytes. */
  function DirectSize(namelen: nat): nat {
    (272 - (MAXNAMLEN + 1)) + (namelen + 1 + 3) / 4 * 4
  }

  /** The two size macros disagree, but always on the safe side: by 0 or 4 bytes. */
  lemma SizeMacrosAgree(n: nat)
    ensures DirentSize(n) <= DirectSize(n) <= DirentSize(n) + 4
    ensures 13 + n < DirentSize(n) <= 17 + n
    ensures DirentSize(n) % 4 == 0 && DirectSize(n) % 4 == 0
    ensures DirentSize(n) == DirectSize(n) <==> n % 4 == 3
  {
  }
}
