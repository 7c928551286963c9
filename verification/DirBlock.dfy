/** Editing one directory block in place (the byte writes of cmd_c++/dir.cc). */
module DirBlock {
  import opened Meta
  import opened Bytes
  import opened Records

  /** The bytes of `buf` from `at` on, for a record of `len` name bytes, are those of `was`. */
  predicate SameOutside(was: seq<byte>, buf: seq<byte>, from: nat, to: nat) {
    |was| == |buf| && forall i :: 0 <= i < |buf| && !(from <= i < to) ==> buf[i] == was[i]
  }

  lemma SliceKept(was: seq<byte>, buf: seq<byte>, from: nat, to: nat, a: nat, b: nat)
    requires SameOutside(was, buf, from, to)
    requires a <= b <= |was| && (b <= from || to <= a)
    ensures buf[a..b] == was[a..b]
  {
  }

  /** A record away from the edited bytes still reads the same. */
  lemma RecKept(was: seq<byte>, buf: seq<byte>, from: nat, to: nat, at: nat, r: Rec)
    requires SameOutside(was, buf, from, to) && RecAt(was, at, r)
    requires at + 13 + |r.name| <= from || to <= at
    ensures RecAt(buf, at, r)
  {
    SliceKept(was, buf, from, to, at, at + 8);
    SliceKept(was, buf, from, to, at + 8, at + 10);
    SliceKept(was, buf, from, to, at + 10, at + 12);
    SliceKept(was, buf, from, to, at + 13, at + 13 + |r.name|);
  }

  /** direct->d_reclen = reclen */
  method SetReclen(buf: array<byte>, at: nat, reclen: nat)
    requires at + 13 <= buf.Length && reclen < 0x1_0000
    modifies buf
    ensures Decode(buf[at + 8..at + 10]) == reclen
    ensures buf[at + 8] as nat == reclen % 256 && buf[at + 9] as nat == reclen / 256
    ensures SameOutside(old(buf[..]), buf[..], at + 8, at + 10)
  {
    Store(buf, at + 8, Encode(reclen, 2));
    RoundTrip16(reclen);
    assert buf[..][at + 8..at + 10] == buf[at + 8..at + 10];
    TwoBytes(buf[..], at + 8, reclen);
  }

  lemma TwoBytes(buf: seq<byte>, at: nat, v: nat)
    requires at + 2 <= |buf| && v < 0x1_0000
    ensures Decode(buf[at..at + 2]) == v <==> buf[at] as nat == v % 256 && buf[at + 1] as nat == v / 256
  {
    Powers();
    LittleEndian(buf, at, 2, v);
    assert Pow256(0) == 1 && Pow256(1) == 256;
    assert Little(buf, at, 2, v) ==>
             buf[at + 0] as nat == v / Pow256(0) % 256 && buf[at + 1] as nat == v / Pow256(1) % 256;
  }

  /** d_ino, d_ftype, d_namelen and the name bytes; d_reclen is left as it is. */
  method SetEntry(buf: array<byte>, at: nat, ino: nat, ftype: byte, name: Name)
    requires at + 13 + |name| <= buf.Length && ino <= TARBLK_NONE && |name| < 0x1_0000
    modifies buf
    ensures RecAt(buf[..], at, Rec(ino, Decode(old(buf[at + 8..at + 10])), name, ftype))
    ensures forall i :: 0 <= i < 8 ==> buf[at + i] as nat == ino / Pow256(i) % 256
    ensures buf[at + 10] as nat == |name| % 256 && buf[at + 11] as nat == |name| / 256 && buf[at + 12] == ftype
    ensures SameOutside(old(buf[..]), buf[..], at, at + 13 + |name|)
  {
    ghost var b0 := buf[..];
    Store(buf, at, Encode(ino, 8));
    Store(buf, at + 12, [ftype]);
    Store(buf, at + 10, Encode(|name|, 2));
    Store(buf, at + 13, name);
    EntryPatched(b0, at, ino, ftype, name);
    assert b0[at + 8..at + 10] == old(buf[at + 8..at + 10]);
    EncodeDecode(b0[at + 8..at + 10]);
    Powers();
    RecBytes(buf[..], at, Rec(ino, Decode(b0[at + 8..at + 10]), name, ftype));
  }

  /** What a stored record looks like, byte by byte. */
  predicate ByteForm(buf: seq<byte>, at: nat, r: Rec) {
    && at + 13 + |r.name| <= |buf|
    && (forall i :: 0 <= i < 8 ==> buf[at + i] as nat == r.ino / Pow256(i) % 256)
    && buf[at + 8] as nat == r.reclen % 256 && buf[at + 9] as nat == r.reclen / 256
    && buf[at + 10] as nat == |r.name| % 256 && buf[at + 11] as nat == |r.name| / 256
    && buf[at + 12] == r.ftype
    && (forall i :: 0 <= i < |r.name| ==> buf[at + 13 + i] == r.name[i])
  }

  lemma RecBytes(buf: seq<byte>, at: nat, r: Rec)
    requires at + 13 + |r.name| <= |buf|
    requires r.ino <= 0xFFFF_FFFF_FFFF_FFFF && r.reclen < 0x1_0000 && |r.name| < 0x1_0000
    ensures RecAt(buf, at, r) <==> ByteForm(buf, at, r)
  {
    Powers();
    LittleEndian(buf, at, 8, r.ino);
    TwoBytes(buf, at + 8, r.reclen);
    TwoBytes(buf, at + 10, |r.name|);
    hide Decode, Pow256;
    var s := buf[at + 13..at + 13 + |r.name|];
    assert forall i :: 0 <= i < |s| ==> s[i] == buf[at + 13 + i];
  }

  /** A record is dead exactly if the eight bytes of its inode number are all ones. */
  lemma DeadBytes(buf: seq<byte>, at: nat, r: Rec)
    requires RecAt(buf, at, r)
    ensures !r.Live() <==> buf[at..at + 8] == [255, 255, 255, 255, 255, 255, 255, 255]
  {
    EncodeDecode(buf[at..at + 8]);
    AllOnes();
  }

  lemma AllOnes()
    ensures Encode(TARBLK_NONE, 8) == [255, 255, 255, 255, 255, 255, 255, 255]
    ensures Decode([255, 255, 255, 255, 255, 255, 255, 255]) == TARBLK_NONE
  {
    RoundTrip64(TARBLK_NONE);
    hide Decode;
    assert Encode(0xFFFF_FFFF, 4) == [255, 255, 255, 255] by {
      assert Encode(0xFFFF, 2) == [255, 255];
    }
    assert Encode(0xFFFF_FFFF_FFFF, 6) == [255, 255, 255, 255, 255, 255] by {
      assert Encode(0xFF_FFFF_FFFF, 5) == [255, 255, 255, 255, 255];
    }
  }

  /** The four writes of SetEntry, on values. */
  function EntryPatch(b: seq<byte>, at: nat, ino: nat, ftype: byte, name: Name): seq<byte>
    requires at + 13 + |name| <= |b|
  {
    Patch(Patch(Patch(Patch(b, at, Encode(ino, 8)), at + 12, [ftype]), at + 10, Encode(|name|, 2)), at + 13, name)
  }

  lemma EntryPatched(b: seq<byte>, at: nat, ino: nat, ftype: byte, name: Name)
    requires at + 13 + |name| <= |b| && ino <= TARBLK_NONE && |name| < 0x1_0000
    ensures RecAt(EntryPatch(b, at, ino, ftype, name), at, Rec(ino, Decode(b[at + 8..at + 10]), name, ftype))
    ensures SameOutside(b, EntryPatch(b, at, ino, ftype, name), at, at + 13 + |name|)
  {
    RoundTrip64(ino);
    RoundTrip16(|name|);
    var b1 := Patch(b, at, Encode(ino, 8));
    var b2 := Patch(b1, at + 12, [ftype]);
    var b3 := Patch(b2, at + 10, Encode(|name|, 2));
    var b4 := Patch(b3, at + 13, name);
    hide Patch, Encode, Decode;
    SliceKept(b1, b2, at + 12, at + 13, at, at + 8);
    SliceKept(b2, b3, at + 10, at + 12, at, at + 8);
    SliceKept(b3, b4, at + 13, at + 13 + |name|, at, at + 8);
    SliceKept(b, b1, at, at + 8, at + 8, at + 10);
    SliceKept(b1, b2, at + 12, at + 13, at + 8, at + 10);
    SliceKept(b2, b3, at + 10, at + 12, at + 8, at + 10);
    SliceKept(b3, b4, at + 13, at + 13 + |name|, at + 8, at + 10);
    SliceKept(b3, b4, at + 13, at + 13 + |name|, at + 10, at + 12);
    assert b2[at + 12] == b2[at + 12..at + 13][0];
  }

  lemma OutsideTrans(a: seq<byte>, b: seq<byte>, c: seq<byte>, from: nat, to: nat, lo: nat, hi: nat, lo': nat, hi': nat)
    requires SameOutside(a, b, lo, hi) && SameOutside(b, c, lo', hi')
    requires from <= lo && hi <= to && from <= lo' && hi' <= to
    ensures SameOutside(a, c, from, to)
  {
  }

  /** A dead record is taken over whole. */
  method ReuseInPlace(buf: array<byte>, inx: nat, ino: nat, ftype: byte, name: Name, ghost r: Rec)
    requires RecAt(buf[..], inx, r) && inx + r.reclen <= buf.Length && DirentSize(|name|) <= r.reclen
    requires ino <= TARBLK_NONE && |name| <= MAXNAMLEN
    modifies buf
    ensures RecAt(buf[..], inx, Rec(ino, r.reclen, name, ftype))
    ensures SameOutside(old(buf[..]), buf[..], inx, inx + r.reclen)
  {
    ghost var b := buf[..];
    assert buf[inx + 8..inx + 10] == b[inx + 8..inx + 10];
    SetEntry(buf, inx, ino, ftype, name);
  }

  /** The numbers of a stored record as they are read back. */
  lemma RecFields(buf: seq<byte>, at: nat, r: Rec)
    requires RecAt(buf, at, r)
    ensures at + 13 + |r.name| <= |buf|
    ensures Decode(buf[at..at + 8]) == r.ino
    ensures Decode(buf[at + 8..at + 10]) == r.reclen
    ensures Decode(buf[at + 10..at + 12]) == |r.name|
  {
  }

  /** A live record is cut to its own size; what it had more is returned. */
  method CutInPlace(buf: array<byte>, inx: nat, ghost r: Rec) returns (keep: nat, rest: nat)
    requires RecAt(buf[..], inx, r) && r.Ok() && buf.Length <= 0x1_0000
    modifies buf
    ensures keep == DirentSize(|r.name|) && rest == r.reclen - keep
    ensures RecAt(buf[..], inx, r.(reclen := keep))
    ensures SameOutside(old(buf[..]), buf[..], inx + 8, inx + 10)
  {
    hide RecAt, SameOutside, Decode, DirentSize;
    ghost var b0 := buf[..];
    RecFields(b0, inx, r);
    assert buf[inx + 8..inx + 10] == b0[inx + 8..inx + 10];
    assert buf[inx + 10..inx + 12] == b0[inx + 10..inx + 12];
    var orgReclen := Decode(buf[inx + 8..inx + 10]);
    keep := DirentSize(Decode(buf[inx + 10..inx + 12]));
    rest := orgReclen - keep;
    SetReclen(buf, inx, keep);
    ReclenSet(b0, buf[..], inx, r, keep);
  }

  /** The new record takes the rest. */
  method SplitInPlace(buf: array<byte>, inx: nat, ino: nat, ftype: byte, name: Name, ghost r: Rec)
    requires RecAt(buf[..], inx, r) && r.Ok() && inx + r.reclen <= buf.Length <= 0x1_0000
    requires DirentSize(|r.name|) + DirentSize(|name|) <= r.reclen
    requires ino <= TARBLK_NONE && |name| <= MAXNAMLEN
    modifies buf
    ensures var keep := DirentSize(|r.name|);
            && RecAt(buf[..], inx, r.(reclen := keep))
            && RecAt(buf[..], inx + keep, Rec(ino, r.reclen - keep, name, ftype))
    ensures SameOutside(old(buf[..]), buf[..], inx, inx + r.reclen)
  {
    hide RecAt, SameOutside, Decode, DirentSize, DirectSize;
    SizeMacrosAgree(|r.name|);
    SizeMacrosAgree(|name|);
    ghost var b0 := buf[..];
    var keep, rest := CutInPlace(buf, inx, r);
    ghost var b1 := buf[..];
    var ep := inx + keep;
    SetReclen(buf, ep, rest);
    ghost var b2 := buf[..];
    SetEntry(buf, ep, ino, ftype, name);
    RecKept(b1, b2, ep + 8, ep + 10, inx, r.(reclen := keep));
    RecKept(b2, buf[..], ep, ep + 13 + |name|, inx, r.(reclen := keep));
    OutsideTrans(b0, b1, b2, inx, inx + r.reclen, inx + 8, inx + 10, ep + 8, ep + 10);
    OutsideTrans(b0, b2, buf[..], inx, inx + r.reclen, inx, inx + r.reclen, ep, ep + 13 + |name|);
  }

  lemma ReclenSet(was: seq<byte>, buf: seq<byte>, at: nat, r: Rec, reclen: nat)
    requires RecAt(was, at, r) && SameOutside(was, buf, at + 8, at + 10)
    requires Decode(buf[at + 8..at + 10]) == reclen
    ensures RecAt(buf, at, r.(reclen := reclen))
  {
    SliceKept(was, buf, at + 8, at + 10, at, at + 8);
    SliceKept(was, buf, at + 8, at + 10, at + 10, at + 12);
    SliceKept(was, buf, at + 8, at + 10, at + 13, at + 13 + |r.name|);
  }

  /** A record that takes a whole block. */
  method FillBlock(buf: array<byte>, ino: nat, ftype: byte, name: Name)
    requires buf.Length == TAR_BLOCKSIZE && ino <= TARBLK_NONE && |name| <= MAXNAMLEN
    modifies buf
    ensures RecAt(buf[..], 0, Rec(ino, TAR_BLOCKSIZE, name, ftype))
  {
    SetReclen(buf, 0, TAR_BLOCKSIZE);
    SetEntry(buf, 0, ino, ftype, name);
  }

  /** The two records of a new directory: "." names the directory, ".." its parent. */
  function DotRecs(ino: nat, pino: nat): (r: seq<Rec>)
    ensures r != []
  {
    [Rec(ino, DirentSize(1), DOT, FTYPE_DIR), Rec(pino, TAR_BLOCKSIZE - DirentSize(1), DOTDOT, FTYPE_DIR)]
  }

  /** The buffer written by dirInit; the bytes outside the records stay undefined. */
  method DotBlock(buf: array<byte>, ino: nat, pino: nat)
    requires buf.Length == TAR_BLOCKSIZE && ino <= TARBLK_NONE && pino <= TARBLK_NONE
    modifies buf
    ensures Encodes([buf[..]], DotRecs(ino, pino))
  {
    hide RecAt, SameOutside, Decode, Encodes;
    var dotLen := DirentSize(1);
    SetReclen(buf, 0, dotLen);
    SetEntry(buf, 0, ino, FTYPE_DIR, DOT);
    ghost var b1 := buf[..];
    SetReclen(buf, dotLen, TAR_BLOCKSIZE - dotLen);
    ghost var b2 := buf[..];
    SetEntry(buf, dotLen, pino, FTYPE_DIR, DOTDOT);
    RecKept(b1, b2, dotLen + 8, dotLen + 10, 0, Rec(ino, dotLen, DOT, FTYPE_DIR));
    RecKept(b2, buf[..], dotLen, dotLen + 15, 0, Rec(ino, dotLen, DOT, FTYPE_DIR));
    DotEncodes(buf[..], ino, pino);
  }

  lemma DotEncodes(buf: seq<byte>, ino: nat, pino: nat)
    requires |buf| == TAR_BLOCKSIZE && ino <= TARBLK_NONE && pino <= TARBLK_NONE
    requires RecAt(buf, 0, DotRecs(ino, pino)[0]) && RecAt(buf, DirentSize(1), DotRecs(ino, pino)[1])
    ensures Encodes([buf], DotRecs(ino, pino))
  {
    var recs := DotRecs(ino, pino);
    assert Offset(recs, 0) == 0;
    assert Offset(recs, 1) == DirentSize(1) == 16;
    assert Offset(recs, 2) == TAR_BLOCKSIZE;
    forall g | 0 <= g < |recs|
      ensures Fits(recs, g) && Stored([buf], recs, g)
    {
      assert g == 0 || g == 1;
    }
  }

  /** The bytes of a new directory's first block. */
  lemma DotBytes(buf: seq<byte>, ino: nat, pino: nat)
    requires |buf| == 512 && Encodes([buf], DotRecs(ino, pino))
    requires ino <= 0xFFFF_FFFF_FFFF_FFFF && pino <= 0xFFFF_FFFF_FFFF_FFFF
    ensures forall i :: 0 <= i < 8 ==> buf[i] as nat == ino / Pow256(i) % 256
    ensures buf[8..14] == [16, 0, 1, 0, 2, 46]
    ensures forall i :: 0 <= i < 8 ==> buf[16 + i] as nat == pino / Pow256(i) % 256
    ensures buf[24..31] == [240, 1, 2, 0, 2, 46, 46]
  {
    var recs := DotRecs(ino, pino);
    assert Stored([buf], recs, 0) && Stored([buf], recs, 1);
    assert Offset(recs, 0) == 0 && Offset(recs, 1) == 16;
    hide Pow256, Decode, Offset, Tiles, ByteForm, RecAt;
    RecBytes(buf, 0, recs[0]);
    RecBytes(buf, 16, recs[1]);
    FirstDot(buf, recs[0]);
    SecondDot(buf, recs[1]);
  }

  lemma FirstDot(buf: seq<byte>, r: Rec)
    requires |buf| == 512 && ByteForm(buf, 0, r) && r.reclen == 16 && r.name == [46] && r.ftype == FTYPE_DIR
    ensures forall i :: 0 <= i < 8 ==> buf[i] as nat == r.ino / Pow256(i) % 256
    ensures buf[8..14] == [16, 0, 1, 0, 2, 46]
  {
    hide Pow256;
    assert buf[0 + 13 + 0] == r.name[0];
    forall i | 0 <= i < 8
      ensures buf[i] as nat == r.ino / Pow256(i) % 256
    {
      assert buf[0 + i] == buf[i];
    }
  }

  lemma SecondDot(buf: seq<byte>, r: Rec)
    requires |buf| == 512 && ByteForm(buf, 16, r) && r.reclen == 496 && r.name == [46, 46] && r.ftype == FTYPE_DIR
    ensures forall i :: 0 <= i < 8 ==> buf[16 + i] as nat == r.ino / Pow256(i) % 256
    ensures buf[24..31] == [240, 1, 2, 0, 2, 46, 46]
  {
    hide Pow256;
    assert buf[16 + 13 + 0] == r.name[0] && buf[16 + 13 + 1] == r.name[1];
  }

  // ----- the edited block encodes the edited records

  /** Block k of `bufs` was edited only in [from, to), which lies inside record `g`. */
  lemma OthersKept(bufs: seq<seq<byte>>, recs: seq<Rec>, g: nat, h: nat, buf: seq<byte>)
    requires Encodes(bufs, recs) && g < |recs| && h < |recs| && h != g
    requires var o := Offset(recs, g);
             && o / TAR_BLOCKSIZE < |bufs|
             && SameOutside(bufs[o / TAR_BLOCKSIZE], buf, o % TAR_BLOCKSIZE, o % TAR_BLOCKSIZE + recs[g].reclen)
    ensures var bufs' := bufs[Offset(recs, g) / TAR_BLOCKSIZE := buf];
            && Offset(recs, h) / TAR_BLOCKSIZE < |bufs'|
            && RecAt(bufs'[Offset(recs, h) / TAR_BLOCKSIZE], Offset(recs, h) % TAR_BLOCKSIZE, recs[h])
  {
    assert Stored(bufs, recs, h);
    var o, p := Offset(recs, g), Offset(recs, h);
    if p / TAR_BLOCKSIZE == o / TAR_BLOCKSIZE {
      assert Fits(recs, h) && Fits(recs, g);
      SizeMacrosAgree(|recs[h].name|);
      if h < g { OffsetMonotone(recs, h, g); } else { OffsetMonotone(recs, g, h); }
      var from := o % TAR_BLOCKSIZE;
      RecKept(bufs[o / TAR_BLOCKSIZE], buf, from, from + recs[g].reclen, p % TAR_BLOCKSIZE, recs[h]);
    }
  }

  lemma ReuseEncodes(bufs: seq<seq<byte>>, recs: seq<Rec>, g: nat, r: Rec, buf: seq<byte>)
    requires Encodes(bufs, recs) && g < |recs| && r.Ok() && r.reclen == recs[g].reclen
    requires var o := Offset(recs, g);
             && o / TAR_BLOCKSIZE < |bufs|
             && SameOutside(bufs[o / TAR_BLOCKSIZE], buf, o % TAR_BLOCKSIZE, o % TAR_BLOCKSIZE + recs[g].reclen)
             && RecAt(buf, o % TAR_BLOCKSIZE, r)
    ensures Encodes(bufs[Offset(recs, g) / TAR_BLOCKSIZE := buf], recs[g := r])
  {
    var s := recs[g := r];
    var bufs' := bufs[Offset(recs, g) / TAR_BLOCKSIZE := buf];
    ReuseTiles(recs, |bufs|, g, r);
    forall h | 0 <= h < |s|
      ensures Stored(bufs', s, h)
    {
      OffsetReuse(recs, g, r, h);
      if h != g {
        OthersKept(bufs, recs, g, h, buf);
      }
    }
  }

  /** `buf` is the block of record `g` after the record was cut and the new one written behind it. */
  predicate SplitImage(bufs: seq<seq<byte>>, recs: seq<Rec>, g: nat, r: Rec, buf: seq<byte>)
    requires g < |recs|
  {
    var at := Offset(recs, g) % TAR_BLOCKSIZE;
    var keep := DirentSize(|recs[g].name|);
    && Offset(recs, g) / TAR_BLOCKSIZE < |bufs|
    && keep + r.reclen == recs[g].reclen
    && SameOutside(bufs[Offset(recs, g) / TAR_BLOCKSIZE], buf, at, at + recs[g].reclen)
    && RecAt(buf, at, recs[g].(reclen := keep))
    && RecAt(buf, at + keep, r)
  }

  lemma SplitHalvesStored(bufs: seq<seq<byte>>, recs: seq<Rec>, g: nat, r: Rec, buf: seq<byte>)
    requires g < |recs| && Fits(recs, g) && r.reclen > 0
    requires SplitImage(bufs, recs, g, r, buf)
    ensures var bufs' := bufs[Offset(recs, g) / TAR_BLOCKSIZE := buf];
            var s := Split(recs, g, r.name, r.ino, r.ftype);
            Stored(bufs', s, g) && Stored(bufs', s, g + 1)
  {
    var s := Split(recs, g, r.name, r.ino, r.ftype);
    assert s[..g] == recs[..g];
    OffsetPrefix(s, recs, g);
    var keep := DirentSize(|recs[g].name|);
    assert Offset(s, g + 1) == Offset(recs, g) + keep;
    CutFits(Offset(recs, g), keep, r.reclen, recs[g].reclen);
  }

  lemma SplitOthersStored(bufs: seq<seq<byte>>, recs: seq<Rec>, g: nat, r: Rec, buf: seq<byte>, h: nat)
    requires Encodes(bufs, recs) && g < |recs| && h < |recs| && h != g
    requires SplitImage(bufs, recs, g, r, buf)
    ensures var bufs' := bufs[Offset(recs, g) / TAR_BLOCKSIZE := buf];
            var s := Split(recs, g, r.name, r.ino, r.ftype);
            Stored(bufs', s, if h < g then h else h + 1)
  {
    var s := Split(recs, g, r.name, r.ino, r.ftype);
    OthersKept(bufs, recs, g, h, buf);
    if h < g {
      assert s[..h] == recs[..h];
      OffsetPrefix(s, recs, h);
      assert s[h] == recs[h];
    } else {
      OffsetSplit(recs, g, r.name, r.ino, r.ftype, h);
      assert s[h + 1] == recs[h];
    }
  }

  lemma SplitStored(bufs: seq<seq<byte>>, recs: seq<Rec>, g: nat, r: Rec, buf: seq<byte>, h: nat)
    requires Encodes(bufs, recs) && g < |recs| && Fits(recs, g) && h <= |recs| && r.reclen > 0
    requires SplitImage(bufs, recs, g, r, buf)
    ensures Stored(bufs[Offset(recs, g) / TAR_BLOCKSIZE := buf], Split(recs, g, r.name, r.ino, r.ftype), h)
  {
    hide Encodes, SplitImage, Stored, Fits, Offset, DirentSize;
    if h == g || h == g + 1 {
      SplitHalvesStored(bufs, recs, g, r, buf);
    } else {
      SplitOthersStored(bufs, recs, g, r, buf, if h < g then h else h - 1);
    }
  }

  lemma SplitEncodes(bufs: seq<seq<byte>>, recs: seq<Rec>, g: nat, r: Rec, buf: seq<byte>)
    requires Encodes(bufs, recs) && g < |recs| && recs[g].Live() && HasRoom(recs[g], DirentSize(|r.name|))
    requires |r.name| <= MAXNAMLEN && r.ino <= TARBLK_NONE && r.reclen > 0
    requires SplitImage(bufs, recs, g, r, buf)
    ensures Encodes(bufs[Offset(recs, g) / TAR_BLOCKSIZE := buf], Split(recs, g, r.name, r.ino, r.ftype))
  {
    hide RecAt, Stored, Offset, DirentSize, DirectSize, Tiles;
    SplitTiles(recs, |bufs|, g, r.name, r.ino, r.ftype);
    var bufs' := bufs[Offset(recs, g) / TAR_BLOCKSIZE := buf];
    var s := Split(recs, g, r.name, r.ino, r.ftype);
    forall h | 0 <= h < |s|
      ensures Stored(bufs', s, h)
    {
      SplitStored(bufs, recs, g, r, buf, h);
    }
  }

  lemma AppendEncodes(bufs: seq<seq<byte>>, recs: seq<Rec>, r: Rec, buf: seq<byte>)
    requires Encodes(bufs, recs) && r.Ok() && r.reclen == TAR_BLOCKSIZE
    requires |buf| == TAR_BLOCKSIZE && RecAt(buf, 0, r)
    ensures Encodes(bufs + [buf], recs + [r])
  {
    var s := recs + [r];
    AppendTiles(recs, |bufs|, r);
    forall h | 0 <= h < |s|
      ensures Stored(bufs + [buf], s, h)
    {
      if h < |recs| {
        assert Stored(bufs, recs, h);
      }
      assert s[..h] == recs[..h];
      OffsetPrefix(s, recs, h);
    }
  }
}
