/** The kernel's resumable directory scan (knl/dir.c). */
module Readdir {
  import opened Meta
  import opened Extents
  import opened Space
  import opened Nodes
  import opened Inodes
  import opened Dirs
  import R = Records

  /** struct dir_context with a consumer that takes `room` more entries and then refuses. */
  class DirContext {
    var pos: nat
    var room: nat
    var taken: seq<(Name, nat)>

    constructor ()
      ensures pos == 0 && taken == []
    {
      pos, room, taken := 0, 0, [];
    }

    /** dir_emit */
    method Emit(name: Name, ino: nat) returns (ok: bool)
      modifies this`room, this`taken
      ensures ok <==> old(room) > 0
      ensures ok ==> room == old(room) - 1 && taken == old(taken) + [(name, ino)]
      ensures !ok ==> room == old(room) && taken == old(taken)
    {
      ok := room > 0;
      if ok {
        room := room - 1;
        taken := taken + [(name, ino)];
      }
    }
  }

  /** The first record of the block that record `g` lies in (or ends at). */
  lemma {:induction false} BlockStart(recs: seq<R.Rec>, n: nat, g: nat) returns (s: nat)
    requires R.Tiles(recs, n) && g <= |recs|
    ensures s <= g && R.Offset(recs, s) == R.Offset(recs, g) / TAR_BLOCKSIZE * TAR_BLOCKSIZE
  {
    if R.Offset(recs, g) % TAR_BLOCKSIZE == 0 {
      s := g;
    } else {
      R.RecordInBlock(recs, n, g - 1);
      s := BlockStart(recs, n, g - 1);
    }
  }

  /** A scan may start at any block boundary of the directory. */
  lemma ScanFrom(io: FsIO, dir: Inode, g: nat) returns (s: nat)
    requires Readable(io, dir) && g <= |dir.recs|
    ensures s <= g
    ensures var off := R.Offset(dir.recs, g) / TAR_BLOCKSIZE * TAR_BLOCKSIZE;
            AtRec(Flat(dir.exts), Bufs(io.blocks, Flat(dir.exts)), dir.recs, s, Pos(off, 0, [], 0))
  {
    var n := |Flat(dir.exts)|;
    EncodesTiles(Bufs(io.blocks, Flat(dir.exts)), dir.recs);
    s := BlockStart(dir.recs, n, g);
    if s < |dir.recs| {
      R.OffsetMonotone(dir.recs, s, |dir.recs|);
    }
  }

  lemma {:induction false} OffsetStrict(recs: seq<R.Rec>, n: nat, g: nat, h: nat)
    requires R.Tiles(recs, n) && g <= |recs| && h <= |recs|
    ensures R.Offset(recs, g) < R.Offset(recs, h) <==> g < h
  {
    if g < h {
      assert R.Fits(recs, g);
      R.OffsetMonotone(recs, g, h);
    } else if h < g {
      R.OffsetMonotone(recs, h, g);
    }
  }

  /** The entries of records from .. to. */
  function Entries(recs: seq<R.Rec>, from: nat, to: nat): seq<(Name, nat)>
    requires from <= to <= |recs|
  {
    R.Live(recs[from..to])
  }

  lemma {:induction false} EntriesStep(recs: seq<R.Rec>, from: nat, to: nat)
    requires from <= to < |recs|
    ensures Entries(recs, from, to + 1)
         == Entries(recs, from, to) + if recs[to].Live() then [(recs[to].name, recs[to].ino)] else []
  {
    assert recs[from..to + 1][..to - from] == recs[from..to];
  }

  lemma {:induction false} EntriesConcat(recs: seq<R.Rec>, from: nat, mid: nat, to: nat)
    requires from <= mid <= to <= |recs|
    ensures Entries(recs, from, to) == Entries(recs, from, mid) + Entries(recs, mid, to)
  {
    assert recs[from..to] == recs[from..mid] + recs[mid..to];
    R.LiveConcat(recs[from..mid], recs[mid..to]);
  }

  /** The position stands on record `g`. */
  ghost predicate At(recs: seq<R.Rec>, g: nat, pos: nat) {
    g <= |recs| && pos == R.Offset(recs, g)
  }

  /** What calls have done since record `g`: the entries up to `g'` are handed over. */
  ghost predicate Progress(recs: seq<R.Rec>, g: nat, g': nat, ctx: DirContext, taken: seq<(Name, nat)>, room: nat)
    reads ctx
  {
    && g <= g' && At(recs, g', ctx.pos)
    && ctx.taken == taken + Entries(recs, g, g')
    && room == ctx.room + |Entries(recs, g, g')|
  }

  lemma ProgressStart(recs: seq<R.Rec>, g: nat, ctx: DirContext)
    requires At(recs, g, ctx.pos)
    ensures Progress(recs, g, g, ctx, ctx.taken, ctx.room)
  {
    assert recs[g..g] == [];
  }

  /** The record `h` under the scan: skipped before the position, handed over unless dead, position moved on. */
  method Offer(ctx: DirContext, off: nat, ino: nat, reclen: nat, name: Name, ghost recs: seq<R.Rec>, ghost n: nat,
               ghost g: nat, ghost h: nat, ghost taken: seq<(Name, nat)>, ghost room: nat) returns (ok: bool)
    requires R.Tiles(recs, n) && h < |recs| && off == R.Offset(recs, h)
    requires ino == recs[h].ino && reclen == recs[h].reclen && name == recs[h].name
    requires Progress(recs, g, if h < g then g else h, ctx, taken, room)
    modifies ctx
    ensures ok ==> Progress(recs, g, if h + 1 < g then g else h + 1, ctx, taken, room)
    ensures !ok ==> Progress(recs, g, h, ctx, taken, room) && ctx.room == 0 && recs[h].Live()
  {
    hide R.Tiles, R.Live;
    OffsetStrict(recs, n, h, if h < g then g else h);
    if h >= g { EntriesStep(recs, g, h); }
    if off >= ctx.pos && ino != TARBLK_NONE {
      ok := ctx.Emit(name, ino);
      if !ok {
        return;
      }
    }
    if off >= ctx.pos {
      ctx.pos := ctx.pos + reclen;
    }
    ok := true;
  }

  /**
    * tarfs_iterate: every call rescans from the start of the block that holds the position, hands over
    * only records at or behind it, and stops at the first one refused.
    */
  method Iterate(dir: Inode, io: FsIO, ctx: DirContext, ghost g: nat) returns (ghost g': nat)
    requires Readable(io, dir) && At(dir.recs, g, ctx.pos)
    modifies ctx
    ensures Progress(dir.recs, g, g', ctx, old(ctx.taken), old(ctx.room))
    ensures g' < |dir.recs| ==> ctx.room == 0 && dir.recs[g'].Live()
  {
    ghost var n := |Flat(dir.exts)|;
    EncodesTiles(Bufs(io.blocks, Flat(dir.exts)), dir.recs);
    ProgressStart(dir.recs, g, ctx);
    hide Readable, Flat, Bufs, R.RecAt, R.Encodes, R.Offset, R.Live, R.Tiles, AtRec, InBlock, Progress;
    var endoff := dir.dinode.size;
    var p := Pos(ctx.pos / TAR_BLOCKSIZE * TAR_BLOCKSIZE, 0, [], 0);
    ghost var h: nat := ScanFrom(io, dir, g);
    while p.off < endoff
      invariant h <= |dir.recs| && AtRec(Flat(dir.exts), Bufs(io.blocks, Flat(dir.exts)), dir.recs, h, p)
      invariant Progress(dir.recs, g, if h < g then g else h, ctx, old(ctx.taken), old(ctx.room))
      decreases endoff - p.off
    {
      var q, ino, reclen, name := ScanStep(dir, io, p, h);
      var ok := Offer(ctx, q.off, ino, reclen, name, dir.recs, n, g, h, old(ctx.taken), old(ctx.room));
      if !ok {
        return h;
      }
      p := q.(off := q.off + reclen, direct := q.direct + reclen);
      h := h + 1;
    }
    ScanDone(io, dir, h, p);
    g' := h;
  }

  function Sum(s: seq<nat>): nat {
    if s == [] then 0 else Sum(s[..|s| - 1]) + s[|s| - 1]
  }

  lemma SumStep(s: seq<nat>, i: nat)
    requires i < |s|
    ensures Sum(s[..i + 1]) == Sum(s[..i]) + s[i]
  {
    assert s[..i + 1][..i] == s[..i];
  }

  /**
    * Reading a directory in any number of calls, the consumer taking up to rooms[i] entries in call i:
    * it gets the directory's entries in order, each once, as many as it had room for in all.
    */
  method Session(dir: Inode, io: FsIO, rooms: seq<nat>) returns (taken: seq<(Name, nat)>)
    requires Readable(io, dir)
    ensures taken == R.Live(dir.recs)[..Min(Sum(rooms), |R.Live(dir.recs)|)]
  {
    hide Readable, R.Offset, R.Live, Sum;
    var ctx := new DirContext();
    ghost var g: nat := 0;
    SessionStart(dir.recs, rooms);
    for i := 0 to |rooms|
      invariant At(dir.recs, g, ctx.pos)
      invariant ctx.taken == Entries(dir.recs, 0, g)
      invariant |ctx.taken| <= Sum(rooms[..i])
      invariant g < |dir.recs| ==> |ctx.taken| == Sum(rooms[..i])
    {
      SumStep(rooms, i);
      ctx.room := rooms[i];
      ghost var g0 := g;
      g := Iterate(dir, io, ctx, g);
      EntriesConcat(dir.recs, 0, g0, g);
    }
    taken := ctx.taken;
    EntriesConcat(dir.recs, 0, g, |dir.recs|);
    assert dir.recs[0..|dir.recs|] == dir.recs;
    assert rooms[..|rooms|] == rooms;
  }

  lemma SessionStart(recs: seq<R.Rec>, rooms: seq<nat>)
    ensures At(recs, 0, 0) && Entries(recs, 0, 0) == [] && Sum(rooms[..0]) == 0
  {
  }
}
