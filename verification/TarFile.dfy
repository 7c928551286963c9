/** One archive entry and its header fields (cmd_c++/util.cc, cmd_c++/file.cc; the "ustar Interchange
    Format" section of the pax utility in POSIX.1-2017). */
module TarFile {
  import opened Meta

  const SPACE: byte := 32
  const ZERO: byte := 48
  const REGTYPE: byte := 48
  const SYMTYPE: byte := 50
  const DIRTYPE: byte := 53

  /** isspace in the C locale. */
  predicate IsSpace(c: byte) {
    c == SPACE || 9 <= c <= 13
  }

  predicate IsOctal(c: byte) {
    ZERO <= c < ZERO + 8
  }

  function SkipSpaces(s: seq<byte>): seq<byte> {
    if s != [] && IsSpace(s[0]) then SkipSpaces(s[1..]) else s
  }

  /** The leading octal digits of `s`. */
  function Digits(s: seq<byte>): seq<byte> {
    if s != [] && IsOctal(s[0]) then [s[0]] + Digits(s[1..]) else []
  }

  function OctalValue(ds: seq<byte>): nat
    requires forall d :: d in ds ==> IsOctal(d)
  {
    if ds == [] then 0
    else
      assert IsOctal(ds[|ds| - 1]);
      8 * OctalValue(ds[..|ds| - 1]) + (ds[|ds| - 1] - ZERO) as nat
  }

  lemma {:induction false} DigitsOctal(s: seq<byte>)
    ensures forall d :: d in Digits(s) ==> IsOctal(d)
  {
    if s != [] && IsOctal(s[0]) {
      DigitsOctal(s[1..]);
    }
  }

  /** strtoull(s, NULL, 8): blanks, an optional sign, octal digits; the result saturates, a minus negates. */
  function Strtoull8(s: seq<byte>): nat {
    var t := SkipSpaces(s);
    var neg := t != [] && t[0] == 45;
    var ds := Digits(if t != [] && (t[0] == 43 || t[0] == 45) then t[1..] else t);
    DigitsOctal(if t != [] && (t[0] == 43 || t[0] == 45) then t[1..] else t);
    var v := OctalValue(ds);
    if v > TARBLK_NONE then TARBLK_NONE
    else if neg && v > 0 then TARBLK_NONE + 1 - v
    else v
  }

  /** Util::strtoint: skips blanks by hand, copies the rest and lets strtoull read it. */
  method StrToInt(p: seq<byte>) returns (val: nat)
    ensures val == Strtoull8(p)
  {
    var i := 0;
    while i < |p| && IsSpace(p[i])
      invariant i <= |p|
      invariant SkipSpaces(p) == SkipSpaces(p[i..])
    {
      i := i + 1;
    }
    val := Strtoull8(p[i..]);
  }

  /** `v` written with `n` octal digits, most significant first. */
  function Octal(v: nat, n: nat): (ds: seq<byte>)
    ensures |ds| == n
    ensures forall d :: d in ds ==> IsOctal(d)
  {
    if n == 0 then [] else Octal(v / 8, n - 1) + [ZERO + (v % 8) as byte]
  }

  function Pow8(n: nat): nat {
    if n == 0 then 1 else 8 * Pow8(n - 1)
  }

  /** Digit `i` of `n`, as a character. */
  lemma {:induction false} OctalDigit(v: nat, n: nat, i: nat)
    requires i < n
    ensures Pow8(n - 1 - i) > 0 && Octal(v, n)[i] as nat == 48 + v / Pow8(n - 1 - i) % 8
  {
    PowPositive(n - 1 - i);
    if i < n - 1 {
      OctalDigit(v / 8, n - 1, i);
      PowPositive(n - 2 - i);
      DivDiv(v, 8, Pow8(n - 2 - i));
    }
  }

  lemma {:induction false} PowPositive(n: nat)
    ensures Pow8(n) > 0
  {
    if n > 0 {
      PowPositive(n - 1);
    }
  }

  lemma {:induction false} OctalValueRoundTrip(v: nat, n: nat)
    requires v < Pow8(n)
    ensures OctalValue(Octal(v, n)) == v
  {
    if n > 0 {
      OctalValueRoundTrip(v / 8, n - 1);
      assert Octal(v, n)[..n - 1] == Octal(v / 8, n - 1);
    }
  }

  lemma {:induction false} DigitsOf(ds: seq<byte>, rest: seq<byte>)
    requires forall d :: d in ds ==> IsOctal(d)
    requires rest == [] || !IsOctal(rest[0])
    ensures Digits(ds + rest) == ds
  {
    if ds == [] {
      assert ds + rest == rest;
    } else {
      assert (ds + rest)[1..] == ds[1..] + rest;
      assert ds == [ds[0]] + ds[1..];
      DigitsOf(ds[1..], rest);
    }
  }

  lemma {:induction false} SkipBlanks(blanks: seq<byte>, rest: seq<byte>)
    requires forall c :: c in blanks ==> IsSpace(c)
    requires rest == [] || !IsSpace(rest[0])
    ensures SkipSpaces(blanks + rest) == rest
  {
    if blanks == [] {
      assert blanks + rest == rest;
    } else {
      assert (blanks + rest)[1..] == blanks[1..] + rest;
      SkipBlanks(blanks[1..], rest);
    }
  }

  /** A number field is read back whatever its blank padding and terminator are. */
  lemma FieldRoundTrip(v: nat, n: nat, blanks: seq<byte>, tail: seq<byte>)
    requires 0 < n && v < Pow8(n) && v <= TARBLK_NONE
    requires forall c :: c in blanks ==> c == 32 || 9 <= c <= 13
    requires tail == [] || tail[0] < 48 || tail[0] > 55
    ensures Strtoull8(blanks + Octal(v, n) + tail) == v
  {
    var ds := Octal(v, n);
    assert ds[0] in ds;
    assert blanks + ds + tail == blanks + (ds + tail);
    SkipBlanks(blanks, ds + tail);
    DigitsOf(ds, tail);
    OctalValueRoundTrip(v, n);
  }

  /** So is one with a sign, but a minus negates in 64 bits. */
  lemma SignedField(v: nat, n: nat, sign: byte, blanks: seq<byte>, tail: seq<byte>)
    requires 0 < n && v < Pow8(n) && v <= 0xFFFF_FFFF_FFFF_FFFF && (sign == 43 || sign == 45)
    requires forall c :: c in blanks ==> c == 32 || 9 <= c <= 13
    requires tail == [] || tail[0] < 48 || tail[0] > 55
    ensures Strtoull8(blanks + [sign] + Octal(v, n) + tail)
         == if sign == 43 || v == 0 then v else 0x1_0000_0000_0000_0000 - v
  {
    var ds := Octal(v, n);
    var rest := [sign] + (ds + tail);
    assert blanks + [sign] + ds + tail == blanks + rest;
    SkipBlanks(blanks, rest);
    assert rest[1..] == ds + tail;
    DigitsOf(ds, tail);
    OctalValueRoundTrip(v, n);
  }

  /** A number that does not fit in 64 bits saturates, with or without a sign. */
  lemma SaturatedField(v: nat, n: nat, blanks: seq<byte>, tail: seq<byte>)
    requires 0 < n && 0xFFFF_FFFF_FFFF_FFFF < v < Pow8(n)
    requires forall c :: c in blanks ==> c == 32 || 9 <= c <= 13
    requires tail == [] || tail[0] < 48 || tail[0] > 55
    ensures Strtoull8(blanks + Octal(v, n) + tail) == 0xFFFF_FFFF_FFFF_FFFF
  {
    var ds := Octal(v, n);
    assert ds[0] in ds;
    assert blanks + ds + tail == blanks + (ds + tail);
    SkipBlanks(blanks, ds + tail);
    DigitsOf(ds, tail);
    OctalValueRoundTrip(v, n);
  }

  /** The C string at the start of `s`: the bytes before the first NUL. */
  function CString(s: seq<byte>): (r: seq<byte>)
    ensures |r| <= |s| && r == s[..|r|]
    ensures |r| < |s| ==> s[|r|] == 0
    ensures forall c :: c in r ==> c != 0
  {
    if s == [] || s[0] == 0 then [] else [s[0]] + CString(s[1..])
  }

  /** The string before the first NUL, whatever follows. */
  lemma {:induction false} StringOf(s: seq<byte>, rest: seq<byte>)
    requires 0 !in s && rest != [] && rest[0] == 0
    ensures CString(s + rest) == s
  {
    if s == [] {
      assert s + rest == rest;
    } else {
      assert (s + rest)[1..] == s[1..] + rest;
      StringOf(s[1..], rest);
    }
  }

  /** Util::getFtype; for any other flag the C value -1 carries no known format. */
  function GetFtype(typeflag: byte): Ftype {
    if typeflag == REGTYPE then REG
    else if typeflag == DIRTYPE then DIR
    else if typeflag == SYMTYPE then LNK
    else NOFMT
  }

  /** TARFS_IFMT of a kind: the four bits above the permissions. */
  function FmtBits(fmt: Ftype): bv4 {
    match fmt
    case REG => 8
    case DIR => 4
    case LNK => 10
    case _ => 0
  }

  /** The kind di_mode shows when a mode field with format bits of its own is or-ed in. */
  function OrFmt(fmt: Ftype, bits: bv4): Ftype {
    var w := FmtBits(fmt) | bits;
    if w == 8 then REG else if w == 4 then DIR else if w == 10 then LNK else OTHER
  }

  /** A parsed entry: path, header block, data extent; `header` is the 512-byte posix_header. */
  datatype File = File(path: Path, addr: Ext, blknoHeader: nat, header: seq<byte>) {
    predicate HasHeader() { |header| == TAR_BLOCKSIZE }

    function Typeflag(): byte requires HasHeader() { header[156] }
    function Fmt(): Ftype requires HasHeader() { GetFtype(Typeflag()) }
    function Mode(): nat requires HasHeader() { Strtoull8(header[100..108]) % UINT32 }

    /** The kind the mode word shows once the mode field is or-ed in, and its other bits. */
    function ModeFmt(): Ftype requires HasHeader() { OrFmt(Fmt(), (Mode() / 0x1000 % 0x10) as bv4) }
    function Perm(): nat requires HasHeader() { Mode() % 0x1000 + Mode() / 0x1_0000 * 0x1_0000 }

    function Uid(): nat requires HasHeader() { Strtoull8(header[108..116]) % UINT32 }
    function Gid(): nat requires HasHeader() { Strtoull8(header[116..124]) % UINT32 }
    function Mtime(): nat requires HasHeader() { Strtoull8(header[136..148]) }

    /** The modification time in microseconds. */
    function Usec(): nat requires HasHeader() { Mtime() * 1000000 % UINT64 }

    function FileSize(): nat
      requires HasHeader()
    {
      if Fmt() == LNK then |CString(header[157..])| else Strtoull8(header[124..136])
    }

    function Blocks(): nat
      requires HasHeader()
    {
      if Fmt() == REG then TarfsBlocks(FileSize()) else 0
    }

    function NumExtents(): nat
      requires HasHeader()
    {
      if Fmt() == REG && FileSize() > 0 then 1 else 0
    }

    /** The data lies within the first `org` blocks. */
    predicate Within(org: nat) {
      HasHeader() && blknoHeader + 1 + Blocks() <= org
    }

    /**
      * What the parser hands to the builder: a supported type the mode field agrees with, a link target that ends
      * in the header, data behind the header.
      */
    predicate Valid() {
      && HasHeader()
      && Fmt() != NOFMT
      && ModeFmt() == Fmt()
      && (Fmt() == REG ==> NoWrap(FileSize())) && (Fmt() == LNK ==> 0 in header[157..])
      && addr == Ext(0, blknoHeader + 1, Blocks())
      && ValidPath(path)
    }
  }

  /** Which format bits a mode field may have without changing the kind of its entry. */
  lemma ModeMeaning(f: File)
    requires f.HasHeader()
    ensures var bits := f.Mode() / 4096 % 16;
            && (f.header[156] == 48 ==> (f.ModeFmt() == f.Fmt() <==> bits == 0 || bits == 8))
            && (f.header[156] == 53 ==> (f.ModeFmt() == f.Fmt() <==> bits == 0 || bits == 4))
            && (f.header[156] == 50 ==>
                  (f.ModeFmt() == f.Fmt() <==> bits == 0 || bits == 2 || bits == 8 || bits == 10))
  {
    var bits := f.Mode() / 4096 % 16;
    Nibble(bits);
  }

  lemma Nibble(n: nat)
    requires n < 16
    ensures OrFmt(REG, n as bv4) == REG <==> n == 0 || n == 8
    ensures OrFmt(DIR, n as bv4) == DIR <==> n == 0 || n == 4
    ensures OrFmt(LNK, n as bv4) == LNK <==> n == 0 || n == 2 || n == 8 || n == 10
  {
    assert n == 0 || n == 1 || n == 2 || n == 3 || n == 4 || n == 5 || n == 6 || n == 7 || n == 8
           || n == 9 || n == 10 || n == 11 || n == 12 || n == 13 || n == 14 || n == 15;
  }

  /** The extent list of a regular file or symbolic link. */
  function FileExts(f: File): seq<Ext>
    requires f.HasHeader()
  {
    if f.NumExtents() == 1 then [f.addr] else []
  }

  predicate ValidName(name: Name) {
    |name| <= MAXNAMLEN && name != [46] && name != [46, 46] && 0 !in name
  }

  predicate ValidPath(path: Path) {
    |path| > 0 && forall c :: c in path ==> ValidName(c)
  }
}
