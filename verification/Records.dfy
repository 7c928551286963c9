/** Directory contents: variable-length records that tile 512-byte blocks. */
module Records {
  import opened Meta
  import opened Bytes

  /** struct tarfs_direct: d_ino at 0, d_reclen at 8, d_namelen at 10, d_ftype at 12, d_name at 13. */
  datatype Rec = Rec(ino: nat, reclen: nat, name: Name, ftype: byte) {
    predicate Live() { ino != TARBLK_NONE }

    /** Room the free-space test sees behind the record; it may be negative. */
    function Slack(): int {
      reclen - if Live() then DirectSize(|name|) else 0
    }

    predicate Ok() {
      && DirentSize(|name|) <= reclen <= TAR_BLOCKSIZE
      && reclen % 4 == 0
      && |name| <= MAXNAMLEN
      && ino <= TARBLK_NONE
    }
  }

  const DOT: Name := [46]
  const DOTDOT: Name := [46, 46]
  const FTYPE_DIR: byte := 2

  /** Byte offset of record `g` in the directory file. */
  function Offset(recs: seq<Rec>, g: nat): nat
    requires g <= |recs|
  {
    if g == 0 then 0 else Offset(recs, g - 1) + recs[g - 1].reclen
  }

  predicate Fits(recs: seq<Rec>, g: nat)
    requires g < |recs|
  {
    recs[g].Ok() && Offset(recs, g) % TAR_BLOCKSIZE + recs[g].reclen <= TAR_BLOCKSIZE
  }

  /** The records fill exactly `n` blocks, none straddles a block, each has room for its name. */
  predicate Tiles(recs: seq<Rec>, n: nat) {
    && (forall g :: 0 <= g < |recs| ==> Fits(recs, g))
    && Offset(recs, |recs|) == TAR_BLOCKSIZE * n
  }

  /** Record `r` is stored at byte `at` of a block image. */
  predicate RecAt(buf: seq<byte>, at: nat, r: Rec) {
    && at + 13 + |r.name| <= |buf|
    && Decode(buf[at..at + 8]) == r.ino
    && Decode(buf[at + 8..at + 10]) == r.reclen
    && Decode(buf[at + 10..at + 12]) == |r.name|
    && buf[at + 12] == r.ftype
    && buf[at + 13..at + 13 + |r.name|] == r.name
  }

  predicate Stored(bufs: seq<seq<byte>>, recs: seq<Rec>, g: nat)
    requires g < |recs|
  {
    && Offset(recs, g) / TAR_BLOCKSIZE < |bufs|
    && RecAt(bufs[Offset(recs, g) / TAR_BLOCKSIZE], Offset(recs, g) % TAR_BLOCKSIZE, recs[g])
  }

  /** The block images `bufs` hold the records. */
  predicate Encodes(bufs: seq<seq<byte>>, recs: seq<Rec>) {
    && (forall k :: 0 <= k < |bufs| ==> |bufs[k]| == TAR_BLOCKSIZE)
    && Tiles(recs, |bufs|)
    && (forall g :: 0 <= g < |recs| ==> Stored(bufs, recs, g))
  }

  // ----- what the scans compute

  predicate Matches(r: Rec, name: Name) {
    r.Live() && r.name == name
  }

  /** First live record called `name`, or |recs|. */
  function Find(recs: seq<Rec>, name: Name): (g: nat)
    ensures g <= |recs|
    ensures g < |recs| ==> Matches(recs[g], name)
    ensures forall h :: 0 <= h < g ==> !Matches(recs[h], name)
  {
    if recs == [] then 0
    else
      var g := Find(recs[..|recs| - 1], name);
      if g < |recs| - 1 then g
      else if Matches(recs[|recs| - 1], name) then g else |recs|
  }

  /** Directory lookup: the inode number the name maps to. */
  function Lookup(recs: seq<Rec>, name: Name): Option<nat> {
    var g := Find(recs, name);
    if g < |recs| then Some(recs[g].ino) else None
  }

  predicate HasRoom(r: Rec, need: nat) {
    r.Slack() >= need
  }

  /** First record with room for `need` more bytes, or |recs|. */
  function FindRoom(recs: seq<Rec>, need: nat): (g: nat)
    ensures g <= |recs|
    ensures g < |recs| ==> HasRoom(recs[g], need)
    ensures forall h :: 0 <= h < g ==> !HasRoom(recs[h], need)
  {
    if recs == [] then 0
    else
      var g := FindRoom(recs[..|recs| - 1], need);
      if g < |recs| - 1 then g
      else if HasRoom(recs[|recs| - 1], need) then g else |recs|
  }

  /** The records after a name was added: reuse a dead record, split a live one, or open a block. */
  function Added(recs: seq<Rec>, name: Name, ino: nat, ftype: byte): (r: seq<Rec>)
    ensures r != []
  {
    var g := FindRoom(recs, DirentSize(|name|));
    if g == |recs| then
      recs + [Rec(ino, TAR_BLOCKSIZE, name, ftype)]
    else if !recs[g].Live() then
      recs[g := Rec(ino, recs[g].reclen, name, ftype)]
    else
      Split(recs, g, name, ino, ftype)
  }

  lemma {:induction false} AddedAppends(recs: seq<Rec>, name: Name, ino: nat, ftype: byte)
    requires FindRoom(recs, DirentSize(|name|)) == |recs|
    ensures Added(recs, name, ino, ftype) == recs + [Rec(ino, TAR_BLOCKSIZE, name, ftype)]
  {
  }

  function Split(recs: seq<Rec>, g: nat, name: Name, ino: nat, ftype: byte): seq<Rec>
    requires g < |recs| && DirentSize(|recs[g].name|) <= recs[g].reclen
  {
    var keep := DirentSize(|recs[g].name|);
    recs[..g] + [recs[g].(reclen := keep), Rec(ino, recs[g].reclen - keep, name, ftype)] + recs[g + 1..]
  }

  // ----- offsets

  lemma {:induction false} OffsetPrefix(a: seq<Rec>, b: seq<Rec>, g: nat)
    requires g <= |a| && g <= |b| && a[..g] == b[..g]
    ensures Offset(a, g) == Offset(b, g)
  {
    if g > 0 {
      assert a[..g - 1] == a[..g][..g - 1] == b[..g - 1];
      assert a[g - 1] == a[..g][g - 1] == b[g - 1];
      OffsetPrefix(a, b, g - 1);
    }
  }

  lemma {:induction false} OffsetMonotone(recs: seq<Rec>, g: nat, h: nat)
    requires g < h <= |recs|
    ensures Offset(recs, g) + recs[g].reclen <= Offset(recs, h)
  {
    if g + 1 < h {
      OffsetMonotone(recs, g, h - 1);
    }
  }

  lemma NextOffset(o: nat, len: nat)
    requires o % TAR_BLOCKSIZE + len <= TAR_BLOCKSIZE
    ensures (o + len) % TAR_BLOCKSIZE != 0 && len > 0 ==>
              && (o + len) / TAR_BLOCKSIZE == o / TAR_BLOCKSIZE
              && (o + len) % TAR_BLOCKSIZE == o % TAR_BLOCKSIZE + len
  {
  }

  /** A record ends in its own block, and the directory ends with its last record. */
  lemma RecordInBlock(recs: seq<Rec>, n: nat, g: nat)
    requires Tiles(recs, n) && g < |recs|
    ensures Offset(recs, g) + recs[g].reclen <= TAR_BLOCKSIZE * n
    ensures var o := Offset(recs, g);
            var next := o + recs[g].reclen;
            next % TAR_BLOCKSIZE != 0 ==>
              && next / TAR_BLOCKSIZE == o / TAR_BLOCKSIZE
              && next % TAR_BLOCKSIZE == o % TAR_BLOCKSIZE + recs[g].reclen
  {
    OffsetMonotone(recs, g, |recs|);
    assert Fits(recs, g);
    NextOffset(Offset(recs, g), recs[g].reclen);
  }

  /** A scan that has reached the end of the directory has seen every record. */
  lemma ScanEnd(recs: seq<Rec>, n: nat, g: nat)
    requires Tiles(recs, n) && g <= |recs| && Offset(recs, g) >= TAR_BLOCKSIZE * n
    ensures g == |recs|
  {
    if g < |recs| {
      assert Fits(recs, g);
      OffsetMonotone(recs, g, |recs|);
    }
  }

  /** Offsets behind the split point do not move. */
  lemma {:induction false} OffsetSplit(recs: seq<Rec>, g: nat, name: Name, ino: nat, ftype: byte, h: nat)
    requires g < |recs| && DirentSize(|recs[g].name|) <= recs[g].reclen && g < h <= |recs|
    ensures Offset(Split(recs, g, name, ino, ftype), h + 1) == Offset(recs, h)
  {
    var s := Split(recs, g, name, ino, ftype);
    if h == g + 1 {
      assert s[..g] == recs[..g];
      OffsetPrefix(s, recs, g);
      assert Offset(s, g + 2) == Offset(s, g + 1) + s[g + 1].reclen;
    } else {
      OffsetSplit(recs, g, name, ino, ftype, h - 1);
      assert s[h] == recs[h - 1];
    }
  }

  // ----- tiling is kept

  /** A record with room can be cut in two without either half straddling the block. */
  lemma CutFits(o: nat, keep: nat, need: nat, reclen: nat)
    requires o % TAR_BLOCKSIZE + reclen <= TAR_BLOCKSIZE
    requires 0 < keep && 0 < need && keep + need <= reclen
    ensures o % TAR_BLOCKSIZE + keep <= TAR_BLOCKSIZE
    ensures (o + keep) % TAR_BLOCKSIZE == o % TAR_BLOCKSIZE + keep
    ensures (o + keep) / TAR_BLOCKSIZE == o / TAR_BLOCKSIZE
  {
  }

  /** The two halves of record `g`. */
  lemma HalvesFit(recs: seq<Rec>, g: nat, name: Name, ino: nat, ftype: byte)
    requires g < |recs| && recs[g].Live() && HasRoom(recs[g], DirentSize(|name|))
    requires |name| <= MAXNAMLEN && ino <= TARBLK_NONE && Fits(recs, g)
    ensures DirentSize(|recs[g].name|) <= recs[g].reclen
    ensures var s := Split(recs, g, name, ino, ftype); Fits(s, g) && Fits(s, g + 1)
  {
    hide DirentSize, DirectSize;
    SizeMacrosAgree(|recs[g].name|);
    SizeMacrosAgree(|name|);
    var s := Split(recs, g, name, ino, ftype);
    assert s[..g] == recs[..g];
    OffsetPrefix(s, recs, g);
    var keep, need := DirentSize(|recs[g].name|), DirentSize(|name|);
    CutFits(Offset(recs, g), keep, need, recs[g].reclen);
    Mod4(recs[g].reclen, keep);
  }

  lemma Mod4(a: int, b: int)
    requires a % 4 == 0 && b % 4 == 0
    ensures (a - b) % 4 == 0
  {
  }

  lemma {:induction false} SplitFits(recs: seq<Rec>, g: nat, name: Name, ino: nat, ftype: byte, h: nat)
    requires g < |recs| && recs[g].Live() && HasRoom(recs[g], DirentSize(|name|))
    requires |name| <= MAXNAMLEN && ino <= TARBLK_NONE && h <= |recs|
    requires Fits(recs, g) && Fits(recs, if h <= g then h else h - 1)
    ensures DirentSize(|recs[g].name|) <= recs[g].reclen
    ensures Fits(Split(recs, g, name, ino, ftype), h)
  {
    hide DirentSize, DirectSize;
    HalvesFit(recs, g, name, ino, ftype);
    var s := Split(recs, g, name, ino, ftype);
    if h < g {
      assert s[..h] == recs[..h];
      OffsetPrefix(s, recs, h);
    } else if h > g + 1 {
      OffsetSplit(recs, g, name, ino, ftype, h - 1);
    }
  }

  lemma SplitTiles(recs: seq<Rec>, n: nat, g: nat, name: Name, ino: nat, ftype: byte)
    requires Tiles(recs, n) && g < |recs| && recs[g].Live()
    requires HasRoom(recs[g], DirentSize(|name|))
    requires |name| <= MAXNAMLEN && ino <= TARBLK_NONE
    ensures Fits(recs, g)
    ensures Tiles(Split(recs, g, name, ino, ftype), n)
  {
    var s := Split(recs, g, name, ino, ftype);
    OffsetSplit(recs, g, name, ino, ftype, |recs|);
    forall h | 0 <= h < |s|
      ensures Fits(s, h)
    {
      assert Fits(recs, g) && Fits(recs, if h <= g then h else h - 1);
      SplitFits(recs, g, name, ino, ftype, h);
    }
  }

  lemma {:induction false} OffsetReuse(recs: seq<Rec>, g: nat, r: Rec, h: nat)
    requires g < |recs| && r.reclen == recs[g].reclen && h <= |recs|
    ensures Offset(recs[g := r], h) == Offset(recs, h)
  {
    if h > 0 {
      OffsetReuse(recs, g, r, h - 1);
    }
  }

  lemma ReuseTiles(recs: seq<Rec>, n: nat, g: nat, r: Rec)
    requires Tiles(recs, n) && g < |recs| && r.Ok() && r.reclen == recs[g].reclen
    ensures Tiles(recs[g := r], n)
  {
    var s := recs[g := r];
    OffsetReuse(recs, g, r, |recs|);
    forall h | 0 <= h < |s|
      ensures Fits(s, h)
    {
      OffsetReuse(recs, g, r, h);
      assert Fits(recs, h);
    }
  }

  lemma AppendTiles(recs: seq<Rec>, n: nat, r: Rec)
    requires Tiles(recs, n) && r.Ok() && r.reclen == TAR_BLOCKSIZE
    ensures Tiles(recs + [r], n + 1)
  {
    var s := recs + [r];
    OffsetPrefix(s, recs, |recs|);
    forall h | 0 <= h < |s|
      ensures Fits(s, h)
    {
      if h < |recs| {
        assert s[..h] == recs[..h];
        OffsetPrefix(s, recs, h);
        assert Fits(recs, h);
      } else {
        assert s[..h] == recs[..h];
      }
    }
  }

  /** Number of blocks of the directory after `Added`. */
  function BlocksAfter(recs: seq<Rec>, n: nat, name: Name): nat {
    if FindRoom(recs, DirentSize(|name|)) == |recs| then n + 1 else n
  }

  /** However an entry is added, the records still tile whole blocks. */
  lemma AddedTiles(recs: seq<Rec>, n: nat, name: Name, ino: nat, ftype: byte)
    requires Tiles(recs, n) && |name| <= MAXNAMLEN && ino <= TARBLK_NONE
    ensures Tiles(Added(recs, name, ino, ftype), BlocksAfter(recs, n, name))
  {
    SizeMacrosAgree(|name|);
    var g := FindRoom(recs, DirentSize(|name|));
    if g == |recs| {
      AppendTiles(recs, n, Rec(ino, TAR_BLOCKSIZE, name, ftype));
    } else {
      assert Fits(recs, g);
      if !recs[g].Live() {
        ReuseTiles(recs, n, g, Rec(ino, recs[g].reclen, name, ftype));
      } else {
        SplitTiles(recs, n, g, name, ino, ftype);
      }
    }
  }

  // ----- a directory is a map from names to inode numbers

  /** The directory's entries in scan order, without dead records and record lengths. */
  function Live(recs: seq<Rec>): seq<(Name, nat)> {
    if recs == [] then []
    else
      var r := recs[|recs| - 1];
      Live(recs[..|recs| - 1]) + if r.Live() then [(r.name, r.ino)] else []
  }

  lemma {:induction false} LiveConcat(a: seq<Rec>, b: seq<Rec>)
    ensures Live(a + b) == Live(a) + Live(b)
  {
    if b == [] {
      assert a + b == a;
    } else {
      assert (a + b)[..|a + b| - 1] == a + b[..|b| - 1];
      LiveConcat(a, b[..|b| - 1]);
    }
  }

  lemma LiveReplace(recs: seq<Rec>, g: nat, mid: seq<Rec>)
    requires g < |recs|
    ensures Live(recs[..g] + mid + recs[g + 1..]) == Live(recs[..g]) + Live(mid) + Live(recs[g + 1..])
  {
    LiveConcat(recs[..g] + mid, recs[g + 1..]);
    LiveConcat(recs[..g], mid);
  }

  lemma LiveOne(r: Rec)
    ensures Live([r]) == if r.Live() then [(r.name, r.ino)] else []
  {
    assert [r][..0] == [];
  }

  ghost predicate Inserted<T>(s: seq<T>, x: T, s': seq<T>, at: nat) {
    at <= |s| && s' == s[..at] + [x] + s[at..]
  }

  lemma InsertedBehind<T>(a: seq<T>, y: T, x: T, b: seq<T>)
    ensures Inserted(a + [y] + b, x, a + [y, x] + b, |a| + 1)
  {
    assert (a + [y] + b)[..|a| + 1] == a + [y];
    assert (a + [y] + b)[|a| + 1..] == b;
  }

  lemma LiveTwo(r1: Rec, r2: Rec)
    requires r1.Live() && r2.Live()
    ensures Live([r1, r2]) == [(r1.name, r1.ino), (r2.name, r2.ino)]
  {
    LiveOne(r1);
    assert [r1, r2][..1] == [r1];
  }

  lemma SplitInserts(recs: seq<Rec>, g: nat, name: Name, ino: nat, ftype: byte)
    requires g < |recs| && recs[g].Live() && DirentSize(|recs[g].name|) <= recs[g].reclen
    requires ino != TARBLK_NONE
    ensures Inserted(Live(recs), (name, ino), Live(Split(recs, g, name, ino, ftype)), |Live(recs[..g])| + 1)
  {
    hide Live, Inserted, DirentSize;
    var r := recs[g];
    assert recs == recs[..g] + [r] + recs[g + 1..];
    LiveReplace(recs, g, [r]);
    LiveOne(r);
    var keep := DirentSize(|r.name|);
    var r1, r2 := r.(reclen := keep), Rec(ino, r.reclen - keep, name, ftype);
    LiveReplace(recs, g, [r1, r2]);
    LiveTwo(r1, r2);
    InsertedBehind(Live(recs[..g]), (r.name, r.ino), (name, ino), Live(recs[g + 1..]));
  }

  lemma InsertedAt<T>(a: seq<T>, x: T, b: seq<T>)
    ensures Inserted(a + [] + b, x, a + [x] + b, |a|)
  {
    assert (a + [] + b)[..|a|] == a && (a + [] + b)[|a|..] == b;
  }

  lemma ReuseInserts(recs: seq<Rec>, g: nat, r: Rec)
    requires g < |recs| && !recs[g].Live() && r.Live()
    ensures Inserted(Live(recs), (r.name, r.ino), Live(recs[g := r]), |Live(recs[..g])|)
  {
    hide Live, Inserted;
    assert recs == recs[..g] + [recs[g]] + recs[g + 1..];
    LiveReplace(recs, g, [recs[g]]);
    LiveOne(recs[g]);
    assert recs[g := r] == recs[..g] + [r] + recs[g + 1..];
    LiveReplace(recs, g, [r]);
    LiveOne(r);
    InsertedAt(Live(recs[..g]), (r.name, r.ino), Live(recs[g + 1..]));
  }

  lemma InsertedLast<T>(a: seq<T>, x: T)
    ensures Inserted(a, x, a + [x], |a|)
  {
  }

  /** Adding inserts exactly the new entry; every other entry and their order stay. */
  lemma AddedInserts(recs: seq<Rec>, name: Name, ino: nat, ftype: byte) returns (at: nat)
    requires ino != TARBLK_NONE
    ensures Inserted(Live(recs), (name, ino), Live(Added(recs, name, ino, ftype)), at)
  {
    hide Live, Inserted, DirentSize, DirectSize;
    var g := FindRoom(recs, DirentSize(|name|));
    if g == |recs| {
      at := |Live(recs)|;
      LiveConcat(recs, [Rec(ino, TAR_BLOCKSIZE, name, ftype)]);
      LiveOne(Rec(ino, TAR_BLOCKSIZE, name, ftype));
      InsertedLast(Live(recs), (name, ino));
    } else if !recs[g].Live() {
      at := |Live(recs[..g])|;
      ReuseInserts(recs, g, Rec(ino, recs[g].reclen, name, ftype));
    } else {
      at := |Live(recs[..g])| + 1;
      SizeMacrosAgree(|recs[g].name|);
      SplitInserts(recs, g, name, ino, ftype);
    }
  }

  /** Lookup seen on the entry list. */
  function Assoc(live: seq<(Name, nat)>, name: Name): Option<nat> {
    if live == [] then None
    else if live[0].0 == name then Some(live[0].1)
    else Assoc(live[1..], name)
  }

  lemma {:induction false} AssocConcat(a: seq<(Name, nat)>, b: seq<(Name, nat)>, name: Name)
    ensures Assoc(a + b, name) == if Assoc(a, name).Some? then Assoc(a, name) else Assoc(b, name)
  {
    if a == [] {
      assert a + b == b;
    } else {
      assert (a + b)[1..] == a[1..] + b;
      AssocConcat(a[1..], b, name);
    }
  }

  lemma {:induction false} LookupIsAssoc(recs: seq<Rec>, name: Name)
    ensures Lookup(recs, name) == Assoc(Live(recs), name)
  {
    if recs != [] {
      var init := recs[..|recs| - 1];
      LookupIsAssoc(init, name);
      var r := recs[|recs| - 1];
      AssocConcat(Live(init), if r.Live() then [(r.name, r.ino)] else [], name);
      assert Find(init, name) < |init| ==> init[Find(init, name)] == recs[Find(init, name)];
    }
  }

  lemma AssocInserted(s: seq<(Name, nat)>, name: Name, ino: nat, s': seq<(Name, nat)>, at: nat, other: Name)
    requires Inserted(s, (name, ino), s', at) && Assoc(s, name) == None
    ensures Assoc(s', other) == if other == name then Some(ino) else Assoc(s, other)
  {
    var a, b := s[..at], s[at..];
    assert s == a + b;
    AssocConcat(a, b, other);
    AssocConcat(a, b, name);
    AssocConcat(a + [(name, ino)], b, other);
    AssocConcat(a, [(name, ino)], other);
    assert Assoc([(name, ino)], other) == if other == name then Some(ino) else None;
  }

  /** The directory behaves as a map: only the added name changes its meaning. */
  lemma AddedLookup(recs: seq<Rec>, name: Name, ino: nat, ftype: byte, other: Name)
    requires ino != TARBLK_NONE
    requires Lookup(recs, name) == None
    ensures Lookup(Added(recs, name, ino, ftype), other) == if other == name then Some(ino) else Lookup(recs, other)
  {
    hide Live, Added, Inserted, Assoc, Lookup;
    var at := AddedInserts(recs, name, ino, ftype);
    var s := Added(recs, name, ino, ftype);
    LookupIsAssoc(recs, name);
    LookupIsAssoc(recs, other);
    LookupIsAssoc(s, other);
    AssocInserted(Live(recs), name, ino, Live(s), at, other);
  }

  // ----- bytes determine records

  lemma SameRec(buf: seq<byte>, at: nat, r: Rec, s: Rec)
    requires RecAt(buf, at, r) && RecAt(buf, at, s)
    ensures r == s
  {
  }

  lemma {:induction false} SamePrefix(bufs: seq<seq<byte>>, recs: seq<Rec>, other: seq<Rec>, g: nat)
    requires Encodes(bufs, recs) && Encodes(bufs, other) && g <= |recs|
    ensures g <= |other| && recs[..g] == other[..g]
  {
    hide RecAt;
    if g > 0 {
      var h := g - 1;
      SamePrefix(bufs, recs, other, h);
      OffsetPrefix(recs, other, h);
      assert Fits(recs, h) && Stored(bufs, recs, h);
      OffsetMonotone(recs, h, |recs|);
      assert h < |other|;
      assert Stored(bufs, other, h);
      SameRec(bufs[Offset(recs, h) / TAR_BLOCKSIZE], Offset(recs, h) % TAR_BLOCKSIZE, recs[h], other[h]);
      assert recs[..g] == recs[..h] + [recs[h]] && other[..g] == other[..h] + [other[h]];
    }
  }

  /** Block images hold at most one list of records. */
  lemma EncodesUnique(bufs: seq<seq<byte>>, recs: seq<Rec>, other: seq<Rec>)
    requires Encodes(bufs, recs) && Encodes(bufs, other)
    ensures recs == other
  {
    hide Encodes;
    SamePrefix(bufs, recs, other, |recs|);
    SamePrefix(bufs, other, recs, |other|);
    assert recs[..|recs|] == recs && other[..|other|] == other;
  }

  /** So adding an entry changes some byte. */
  lemma AddedChanges(bufs: seq<seq<byte>>, recs: seq<Rec>, name: Name, ino: nat, ftype: byte)
    requires Encodes(bufs, recs) && ino != TARBLK_NONE
    ensures !Encodes(bufs, Added(recs, name, ino, ftype))
  {
    hide Encodes, Added, Live;
    var at := AddedInserts(recs, name, ino, ftype);
    if Encodes(bufs, Added(recs, name, ino, ftype)) {
      EncodesUnique(bufs, recs, Added(recs, name, ino, ftype));
    }
  }
}
