/** A header block as an archiver writes it: the fields of struct posix_header one behind the other
    (include/tarfs_meta.h; the "ustar Interchange Format" section of the pax utility in POSIX.1-2017). */
module Ustar {
  import opened Meta
  import opened TarFile
  import opened PathSplit
  import opened Parser

  /** The fields in their order; `rest` is what lies behind the link name. */
  datatype Header = Header(
    name: seq<byte>, mode: seq<byte>, uid: seq<byte>, gid: seq<byte>, size: seq<byte>, mtime: seq<byte>,
    chksum: seq<byte>, flag: byte, link: seq<byte>, rest: seq<byte>)
  {
    predicate Widths() {
      && |name| == 100 && |mode| == 8 && |uid| == 8 && |gid| == 8 && |size| == 12 && |mtime| == 12
      && |chksum| == 8 && |link| == 100 && |rest| == 255
    }

    function Bytes(): seq<byte> {
      name + mode + uid + gid + size + mtime + chksum + [flag] + link + rest
    }
  }

  /** What the fields are to say. */
  datatype Attrs = Attrs(mode: nat, uid: nat, gid: nat, size: nat, mtime: nat, target: seq<byte>)

  /** The field holds `v` in `n` octal digits behind `pad` blanks, ended by a NUL or a blank unless it is full. */
  predicate NumberIn(field: seq<byte>, v: nat, pad: nat, n: nat) {
    && 0 < n && pad + n <= |field| && v < Pow8(n)
    && (forall i :: 0 <= i < pad ==> field[i] == 32)
    && field[pad..pad + n] == Octal(v, n)
    && (pad + n < |field| ==> field[pad + n] == 0 || field[pad + n] == 32)
  }

  predicate Number(field: seq<byte>, v: nat) {
    exists pad, n :: 0 <= pad <= |field| && 0 <= n <= |field| && NumberIn(field, v, pad, n)
  }

  /** The field holds a string that ends in it. */
  predicate Ended(field: seq<byte>, s: seq<byte>) {
    0 !in s && |s| < |field| && field[..|s|] == s && field[|s|] == 0
  }

  /** Every field says what it should; only a symbolic link needs a target. */
  predicate Says(u: Header, a: Attrs) {
    && u.Widths()
    && Number(u.mode, a.mode) && Number(u.uid, a.uid) && Number(u.gid, a.gid)
    && Number(u.size, a.size) && Number(u.mtime, a.mtime)
    && (u.flag == 50 ==> Ended(u.link, a.target))
  }

  lemma {:induction false} PowBound(n: nat)
    requires n <= 12
    ensures Pow8(n) <= 0x10_0000_0000
    decreases 12 - n
  {
    if n == 12 {
      assert Pow8(3) == 512 && Pow8(6) == 512 * 512;
      assert Pow8(9) == 512 * Pow8(6) && Pow8(12) == 512 * Pow8(9);
    } else {
      PowBound(n + 1);
    }
  }

  /** A number field is read as the number it holds. */
  lemma NumberRead(field: seq<byte>, v: nat)
    requires Number(field, v) && |field| <= 12
    ensures Strtoull8(field) == v < 0x10_0000_0000
  {
    hide Strtoull8, Octal, Pow8;
    var pad, n :| 0 <= pad <= |field| && 0 <= n <= |field| && NumberIn(field, v, pad, n);
    PowBound(n);
    assert field == field[..pad] + field[pad..pad + n] + field[pad + n..];
    FieldRoundTrip(v, n, field[..pad], field[pad + n..]);
  }

  /** Eight octal digits at most. */
  lemma ShortNumber(field: seq<byte>, v: nat)
    requires Number(field, v) && |field| == 8
    ensures v < 0x100_0000
  {
    hide Strtoull8, Octal;
    var pad, n :| 0 <= pad <= |field| && 0 <= n <= |field| && NumberIn(field, v, pad, n);
    ShortPow(n);
  }

  lemma {:induction false} ShortPow(n: nat)
    requires n <= 8
    ensures Pow8(n) <= 0x100_0000
    decreases 8 - n
  {
    if n == 8 {
      assert Pow8(4) == 4096 && Pow8(8) == 4096 * Pow8(4);
    } else {
      ShortPow(n + 1);
    }
  }

  /** Where the fields are in the block. */
  lemma Sections(u: Header)
    requires u.Widths()
    ensures var h := u.Bytes();
            && |h| == 512 && h[..100] == u.name && h[100..108] == u.mode && h[108..116] == u.uid
            && h[116..124] == u.gid && h[124..136] == u.size && h[136..148] == u.mtime && h[156] == u.flag
            && h[157..257] == u.link
  {
  }

  lemma TargetRead(u: Header, s: seq<byte>)
    requires u.Widths() && Ended(u.link, s)
    ensures |u.Bytes()| == 512 && CString(u.Bytes()[157..]) == s && 0 in u.Bytes()[157..]
  {
    Sections(u);
    var t := u.Bytes()[157..];
    assert t == u.link + u.rest;
    assert t[..|s|] == u.link[..|s|] && t[|s|] == u.link[|s|];
    assert t == s + t[|s|..];
    StringOf(s, t[|s|..]);
  }

  lemma NumbersRead(u: Header, a: Attrs)
    requires Says(u, a)
    ensures var h := u.Bytes();
            && |h| == 512
            && Strtoull8(h[100..108]) == a.mode < 0x100_0000 && Strtoull8(h[108..116]) == a.uid < 0x100_0000
            && Strtoull8(h[116..124]) == a.gid < 0x100_0000
            && Strtoull8(h[124..136]) == a.size < 0x10_0000_0000
            && Strtoull8(h[136..148]) == a.mtime < 0x10_0000_0000
  {
    Sections(u);
    hide Number, Strtoull8, CString, Header.Bytes;
    NumberRead(u.mode, a.mode);
    ShortNumber(u.mode, a.mode);
    NumberRead(u.uid, a.uid);
    NumberRead(u.gid, a.gid);
    ShortNumber(u.uid, a.uid);
    ShortNumber(u.gid, a.gid);
    NumberRead(u.size, a.size);
    NumberRead(u.mtime, a.mtime);
  }

  /** The permissions are the mode without its format bits. */
  lemma PermOf(mode: nat)
    ensures mode % 0x1000 + mode / 0x1_0000 * 0x1_0000 == mode - mode / 4096 % 16 * 4096
  {
    var q := mode / 4096;
    assert mode == 4096 * q + mode % 4096 && q == 16 * (q / 16) + q % 16 && mode / 0x1_0000 == q / 16;
  }

  lemma ModeOf(f: File, mode: nat)
    requires f.HasHeader() && Strtoull8(f.header[100..108]) == mode < 0x100_0000
    ensures f.Mode() == mode && f.Perm() == mode - mode / 4096 % 16 * 4096
  {
    hide Strtoull8;
    PermOf(mode);
  }

  lemma IdsOf(f: File, uid: nat, gid: nat, mtime: nat)
    requires f.HasHeader() && Strtoull8(f.header[108..116]) == uid < 0x100_0000
    requires Strtoull8(f.header[116..124]) == gid < 0x100_0000
    requires Strtoull8(f.header[136..148]) == mtime < 0x10_0000_0000
    ensures f.Uid() == uid && f.Gid() == gid && f.Usec() == 1000000 * mtime
  {
    hide Strtoull8;
  }

  lemma FlagSays(f: File, u: Header, a: Attrs)
    requires Says(u, a) && f.header == u.Bytes()
    ensures f.HasHeader() && f.header[156] == u.flag
    ensures u.flag == 48 ==> f.Fmt() == REG && f.FileSize() == a.size
    ensures u.flag == 53 ==> f.Fmt() == DIR
    ensures u.flag == 50 ==> f.Fmt() == LNK && f.FileSize() == |a.target|
  {
    hide Number, Strtoull8, CString, Header.Bytes;
    Sections(u);
    NumbersRead(u, a);
    if u.flag == 50 {
      TargetRead(u, a.target);
    }
  }

  /** setFile's sources, read from the fields: an entry with such a header carries what they say. */
  lemma HeaderSays(f: File, u: Header, a: Attrs)
    requires Says(u, a) && f.header == u.Bytes()
    ensures f.HasHeader() && f.header[156] == u.flag
    ensures f.Mode() == a.mode && f.Uid() == a.uid && f.Gid() == a.gid && f.Usec() == 1000000 * a.mtime
    ensures f.Perm() == a.mode - a.mode / 4096 % 16 * 4096
    ensures u.flag == 48 ==> f.Fmt() == REG && f.FileSize() == a.size
    ensures u.flag == 53 ==> f.Fmt() == DIR
    ensures u.flag == 50 ==> f.Fmt() == LNK && f.FileSize() == |a.target|
  {
    hide Says, Strtoull8, Header.Bytes, File.Mode, File.Perm, File.Uid, File.Gid, File.Usec, File.Fmt, File.FileSize;
    NumbersRead(u, a);
    FlagSays(f, u, a);
    ModeOf(f, a.mode);
    IdsOf(f, a.uid, a.gid, a.mtime);
  }

  /**
    * What an archiver may write is an entry of an archive: a supported kind, a mode without format bits, a name in
    * the header that splits into a path, and as many blocks of data as the size calls for.
    */
  lemma Written(u: Header, a: Attrs, name: seq<byte>, path: Path, data: seq<Block>)
    requires Says(u, a) && (u.flag == 48 || u.flag == 50 || u.flag == 53) && a.mode < 4096
    requires Ended(u.name, name) && name != [] && SplitPath(name) == Some(path) && ValidPath(path)
    requires if u.flag == 48 then Fill(|data|, a.size) else data == []
    ensures ItemOk(Item(None, u.Bytes(), data)) && Text(Item(None, u.Bytes(), data)) == name
  {
    hide Number, Strtoull8, CString, SplitPath, Octal;
    Sections(u);
    NumbersRead(u, a);
    FillIs(|data|, a.size);
    NameRead(u, name);
    if u.flag == 50 { TargetRead(u, a.target); }
    hide Says, Header.Bytes, TarfsBlocks;
    var i := Item(None, u.Bytes(), data);
    FlagSays(FileOf(i, 0), u, a);
    ModeOf(FileOf(i, 0), a.mode);
    ModeMeaning(FileOf(i, 0));
  }

  lemma NameRead(u: Header, name: seq<byte>)
    requires u.Widths() && Ended(u.name, name)
    ensures |u.Bytes()| == 512 && CString(u.Bytes()) == name && (name != [] ==> u.Bytes()[0] != 0)
  {
    Sections(u);
    var h := u.Bytes();
    assert h[..|name|] == u.name[..|name|] && h[|name|] == h[..100][|name|] == u.name[|name|];
    assert h == name + h[|name|..];
    StringOf(name, h[|name|..]);
    assert name != [] ==> h[0] == name[0] && name[0] in name;
  }
}
