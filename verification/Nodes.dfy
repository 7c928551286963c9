/** All inodes of the image together: what every step of the builder keeps. */
module Nodes {
  import opened Meta
  import opened Extents
  import opened ExtMap
  import opened Records
  import opened Volume

  /**
    * An inode's current dinode and what it stands for: extents, chain blocks, directory records, path. An `intact`
    * directory was never anything else: its records are in blocks of its own.
    */
  datatype Node = Node(d: Dinode, exts: seq<Ext>, chain: seq<nat>, recs: seq<Rec>, intact: bool, path: Path)

  /** The inode was made as a directory. Its records are remembered even if an entry turned it into something else. */
  predicate MadeDir(n: Node) {
    n.recs != []
  }

  predicate Increasing(s: seq<nat>) {
    forall i, j :: 0 <= i < j < |s| ==> s[i] < s[j]
  }

  function BytesOf(b: Block): seq<byte> {
    if b.DirBlk? || b.Raw? then b.bytes else []
  }

  /** The directory's block images in file order. */
  function Bufs(blocks: seq<Block>, flat: seq<nat>): (r: seq<seq<byte>>)
    ensures |r| == |flat|
  {
    seq(|flat|, k requires 0 <= k < |flat| => if flat[k] < |blocks| then BytesOf(blocks[flat[k]]) else [])
  }

  /** The data blocks of directory `ino` are exactly the blocks tagged DirData(ino, _). */
  predicate DirOwned(v: Vol, ino: nat, flat: seq<nat>) {
    && (forall k :: 0 <= k < |flat| ==> flat[k] < |v.owner| && v.owner[flat[k]] == DirData(ino, k))
    && (forall b :: 0 <= b < |v.owner| ==> v.owner[b].DirData? && v.owner[b].ino == ino ==>
          v.owner[b].k < |flat| && flat[v.owner[b].k] == b)
  }

  predicate DirOk(v: Vol, ino: nat, d: Dinode, exts: seq<Ext>, recs: seq<Rec>) {
    var flat := Flat(exts);
    && d.blocks == |flat| && d.size == TAR_BLOCKSIZE * |flat|
    && Increasing(flat)
    && DirOwned(v, ino, flat)
    && Encodes(Bufs(v.blocks, flat), recs)
  }

  /** At most one extent, of archive blocks. */
  predicate InArchive(exts: seq<Ext>, org: nat) {
    |exts| <= 1 && forall e :: e in exts ==> e.End() <= org
  }

  /**
    * The inode's map can be followed. An intact directory and inode 0 own exactly the blocks they use; anything else,
    * a directory that setFile made of it included, maps archive blocks only, and owns none unless it was made as a
    * directory.
    */
  predicate NodeOk(v: Vol, ino: nat, n: Node) {
    && ExtRep(v.blocks, n.d, n.exts, n.chain)
    && Tiled(n.exts)
    && (if n.intact then
          && n.d.fmt == DIR && MadeDir(n)
          && ChainOwned(v, ino, n.chain) && DirOk(v, ino, n.d, n.exts, n.recs)
        else
          && (MadeDir(n) || ino != FREE_INO ==> InArchive(n.exts, v.org))
          && (!MadeDir(n) ==> ChainOwned(v, ino, n.chain) && DirOwned(v, ino, [])))
  }

  /** Besides, a directory's records are in blocks of its own. */
  predicate InOrder(v: Vol, ino: nat, n: Node) {
    && NodeOk(v, ino, n)
    && (n.d.fmt == DIR ==> MadeDir(n) && ChainOwned(v, ino, n.chain) && DirOk(v, ino, n.d, n.exts, n.recs))
  }

  /** The first mapped block tells an intact directory from one that maps archive blocks. */
  predicate OwnRecords(d: Dinode, org: nat) {
    d.nExtents > 0 && d.direct != [] && d.direct[0].blkno >= org
  }

  /** The table grows by whole bulks; its unused entries are the dinode free list. */
  predicate TableShape(table: seq<nat>, inodes: nat, p: Pool, org: nat) {
    && p.lo <= p.hi
    && |table| == inodes + (p.hi - p.lo)
    && Increasing(table)
    && (forall k :: inodes <= k < |table| ==> table[k] == p.lo + (k - inodes))
    && |table| % BULKS == 0
    && inodes > 0 && |table| > 1 && table[0] == org && table[1] == org + 1
  }

  /** Inode 0 maps inode numbers to dinode blocks. */
  predicate TableOk(v: Vol, table: seq<nat>, inodes: nat)
    requires |v.pools| == 3
  {
    && TableShape(table, inodes, v.pools[DINODEMGR], v.org)
    && (forall k :: 0 <= k < inodes ==> table[k] < |v.owner| && v.owner[table[k]] == Dino(k))
    && (forall b :: 0 <= b < |v.owner| ==> v.owner[b].Dino? ==>
          v.owner[b].ino < inodes && table[v.owner[b].ino] == b)
  }

  function Table(nodes: seq<Node>): seq<nat>
    requires |nodes| > 0
  {
    Flat(nodes[0].exts)
  }

  /** Every data and indirect block belongs to an inode that exists. */
  predicate TagsOk(v: Vol, inodes: nat) {
    forall b :: 0 <= b < |v.owner| ==>
      (v.owner[b].DirData? || v.owner[b].Chain?) ==> v.owner[b].ino < inodes
  }

  predicate AllNodesOk(v: Vol, nodes: seq<Node>) {
    forall i :: 0 <= i < |nodes| ==> NodeOk(v, i, nodes[i])
  }

  predicate IsTable(n: Node) {
    n.d.fmt == NOFMT && n.path == [] && !MadeDir(n)
  }

  /** The image with `issued` dinode blocks in use; all but the newest have their inode. */
  predicate VolOkWith(v: Vol, nodes: seq<Node>, issued: nat) {
    && SpaceOk(v)
    && 0 < |nodes| <= issued && IsTable(nodes[0])
    && AllNodesOk(v, nodes)
    && TableOk(v, Table(nodes), issued)
    && TagsOk(v, |nodes|)
  }

  predicate VolOk(v: Vol, nodes: seq<Node>) {
    VolOkWith(v, nodes, |nodes|)
  }

  lemma VolShape(v: Vol, nodes: seq<Node>)
    requires VolOk(v, nodes)
    ensures SpaceOk(v) && |v.pools| == 3 && |nodes| > 0 && |Table(nodes)| >= |nodes|
  {
  }

  lemma NodeAt(v: Vol, nodes: seq<Node>, i: nat)
    requires VolOk(v, nodes) && i < |nodes|
    ensures NodeOk(v, i, nodes[i])
  {
  }

  /** The dinodes of all inodes but the `open` ones are on disk, where inode 0 says. */
  predicate Synced(v: Vol, nodes: seq<Node>, open: set<nat>)
    requires |nodes| > 0
  {
    forall i :: 0 <= i < |nodes| && i !in open ==>
      i < |Table(nodes)| && Table(nodes)[i] < |v.blocks| && v.blocks[Table(nodes)[i]] == DinodeBlk(nodes[i].d)
  }

  // ----- what a reader needs

  /** The extent map of a node can be followed on disk. */
  predicate MapReadable(blocks: seq<Block>, n: Node) {
    ExtRep(blocks, n.d, n.exts, n.chain) && TARBLK_NONE !in n.chain && Tiled(n.exts)
  }

  /** The dinode of inode `i` is on disk where inode 0 says. */
  predicate OnDisk(blocks: seq<Block>, nodes: seq<Node>, i: nat)
    requires |nodes| > 0
  {
    && i < |nodes| && i < |Table(nodes)| && Table(nodes)[i] < |blocks|
    && blocks[Table(nodes)[i]] == DinodeBlk(nodes[i].d)
  }

  lemma VolReadable(v: Vol, nodes: seq<Node>, i: nat)
    requires VolOk(v, nodes) && i < |nodes|
    ensures MapReadable(v.blocks, nodes[i])
    ensures i < |Table(nodes)| && Table(nodes)[i] < |v.owner| && v.owner[Table(nodes)[i]] == Dino(i)
  {
    assert NodeOk(v, i, nodes[i]);
    if |nodes[i].exts| <= MAX_DINODE_DIRECT {
      NoChain(v.blocks, nodes[i].d, nodes[i].exts, nodes[i].chain);
    }
    forall k | 0 <= k < |nodes[i].chain|
      ensures nodes[i].chain[k] != TARBLK_NONE
    {
      assert v.owner[nodes[i].chain[k]] == Chain(i, k);
    }
  }

  lemma SyncedOnDisk(v: Vol, nodes: seq<Node>, open: set<nat>, i: nat)
    requires |nodes| > 0 && Synced(v, nodes, open) && i < |nodes| && i !in open
    ensures OnDisk(v.blocks, nodes, i)
  {
  }

  lemma {:induction false} IncreasingAtLeast(s: seq<nat>, k: nat)
    requires Increasing(s) && k < |s|
    ensures s[k] >= k
  {
    if k > 0 {
      IncreasingAtLeast(s, k - 1);
    }
  }

  /** Inode numbers stay below the block count. */
  lemma InodesBelow(v: Vol, nodes: seq<Node>, issued: nat)
    requires VolOkWith(v, nodes, issued)
    ensures issued <= |v.blocks| <= TARBLK_NONE
  {
    var table := Table(nodes);
    assert v.owner[table[issued - 1]] == Dino(issued - 1);
    IncreasingAtLeast(table, issued - 1);
  }

  // ----- frames

  lemma DirFrame(v: Vol, v': Vol, t: set<Class>, ino: nat, d: Dinode, exts: seq<Ext>, recs: seq<Rec>)
    requires Frame(v, v', t) && KDir(ino) !in t
    requires DirOk(v, ino, d, exts, recs)
    ensures DirOk(v', ino, d, exts, recs)
  {
    var flat := Flat(exts);
    forall k | 0 <= k < |flat|
      ensures flat[k] < |v'.owner| && v'.owner[flat[k]] == DirData(ino, k) && v'.blocks[flat[k]] == v.blocks[flat[k]]
    {
      assert v.owner[flat[k]] == DirData(ino, k);
    }
    assert Bufs(v'.blocks, flat) == Bufs(v.blocks, flat);
  }

  lemma NodeFrame(v: Vol, v': Vol, t: set<Class>, ino: nat, n: Node)
    requires Frame(v, v', t) && KDir(ino) !in t && KChain(ino) !in t
    requires NodeOk(v, ino, n)
    ensures NodeOk(v', ino, n)
  {
    hide ExtRep, Increasing, Encodes, Tiled, Flat;
    if n.intact {
      RepFrame(v, v', t, ino, n.d, n.exts, n.chain);
      DirFrame(v, v', t, ino, n.d, n.exts, n.recs);
    } else if MadeDir(n) {
      NoChain(v.blocks, n.d, n.exts, n.chain);
      RepNoChain(v.blocks, v'.blocks, n.d, n.exts);
    } else {
      RepFrame(v, v', t, ino, n.d, n.exts, n.chain);
    }
  }

  lemma FlatInArchive(exts: seq<Ext>, org: nat)
    requires InArchive(exts, org) && Tiled(exts)
    ensures |Flat(exts)| <= org && forall k :: 0 <= k < |Flat(exts)| ==> Flat(exts)[k] < org
  {
    if exts != [] {
      assert exts[0] in exts && exts[..0] == [];
      assert Flat([]) == [] && Flat(exts) == [] + Blocks(exts[0]);
    }
  }

  /** A map of few extents needs no indirect block. */
  lemma NoChain(blocks: seq<Block>, d: Dinode, exts: seq<Ext>, chain: seq<nat>)
    requires ExtRep(blocks, d, exts, chain) && |exts| <= MAX_DINODE_DIRECT
    ensures chain == []
  {
  }

  lemma TableFrame(v: Vol, v': Vol, t: set<Class>, table: seq<nat>, inodes: nat)
    requires Frame(v, v', t) && (forall i :: KDino(i) !in t)
    requires |v.pools| == |v'.pools| == 3 && v'.pools[DINODEMGR] == v.pools[DINODEMGR]
    requires TableOk(v, table, inodes)
    ensures TableOk(v', table, inodes)
  {
    forall k | 0 <= k < inodes
      ensures table[k] < |v'.owner| && v'.owner[table[k]] == Dino(k)
    {
      assert v.owner[table[k]] == Dino(k);
    }
  }

  /** The dinode map seen by Synced depends only on dinode blocks. */
  lemma SyncedFrame(v: Vol, v': Vol, t: set<Class>, nodes: seq<Node>, open: set<nat>)
    requires Frame(v, v', t) && (forall i :: KDino(i) in t ==> i in open)
    requires |nodes| > 0 && |v.pools| == 3 && TableOk(v, Table(nodes), |nodes|)
    requires Synced(v, nodes, open)
    ensures Synced(v', nodes, open)
  {
    var table := Table(nodes);
    forall i | 0 <= i < |nodes| && i !in open
      ensures table[i] < |v'.blocks| && v'.blocks[table[i]] == DinodeBlk(nodes[i].d)
    {
      assert v.owner[table[i]] == Dino(i);
    }
  }

  // ----- the extent list of a growing file

  /** A block above all mapped ones can only be adjacent to the last extent. */
  lemma {:induction false} AboveOnlyLast(exts: seq<Ext>, b: nat)
    requires Tiled(exts) && Increasing(Flat(exts))
    requires forall k :: 0 <= k < |Flat(exts)| ==> Flat(exts)[k] < b
    ensures OnlyLastAdjacent(exts, b)
  {
    forall i | 0 <= i < |exts| - 1
      ensures exts[i].End() != b
    {
      TiledPrefix(exts, i + 1);
      FlatPrefix(exts, i + 1);
      var n := |Flat(exts[..i + 1])|;
      assert exts[..i + 1][..i] == exts[..i];
      TiledPrefix(exts, i);
      assert Flat(exts[..i + 1])[n - 1] == exts[i].End() - 1;
      TiledPrefix(exts, i + 2);
      FlatPrefix(exts, i + 2);
      assert exts[..i + 2][..i + 1] == exts[..i + 1];
      assert Flat(exts)[n - 1] == exts[i].End() - 1 && n < |Flat(exts)|;
      assert Flat(exts)[n - 1] < Flat(exts)[n] < b;
    }
  }

  lemma {:induction false} FlatPrefix(exts: seq<Ext>, n: nat)
    requires n <= |exts|
    ensures Flat(exts[..n]) <= Flat(exts)
  {
    if n == |exts| {
      assert exts[..n] == exts;
    } else {
      var init := exts[..|exts| - 1];
      FlatPrefix(init, n);
      assert init[..n] == exts[..n];
    }
  }

  /** Appending a run of blocks above all mapped ones. */
  lemma AppendedRun(exts: seq<Ext>, flat: seq<nat>, de: Ext)
    requires Tiled(exts) && flat == Flat(exts) && Increasing(flat)
    requires de.off == |flat| && de.nblks > 0 && (forall k :: 0 <= k < |flat| ==> flat[k] < de.blkno)
    ensures Tiled(InsExt(exts, de)) && Flat(InsExt(exts, de)) == flat + Blocks(de)
  {
    AboveOnlyLast(exts, de.blkno);
    InsExtAppends(exts, de);
  }

  // ----- the inode table when a dinode block is issued

  /** The inode table after the next dinode block was issued. */
  function TableAfter(v: Vol, table: seq<nat>): seq<nat>
    requires |v.pools| == 3
  {
    var p := v.pools[DINODEMGR];
    if p.lo < p.hi then table else table + Blocks(Ext(|table|, |v.blocks|, BULKS))
  }

  lemma TableBelow(v: Vol, table: seq<nat>, inodes: nat, b: nat)
    requires SpaceOk(v) && TableOk(v, table, inodes) && IssuedAllBelow(v, DINODEMGR, b)
    ensures forall k :: 0 <= k < inodes ==> table[k] < b && table[k] < |v.owner|
  {
    forall k | 0 <= k < inodes
      ensures table[k] < b && table[k] < |v.owner|
    {
      assert v.owner[table[k]] == Dino(k);
    }
  }

  /** The table over one more dinode block `b`. */
  lemma TableTags(v: Vol, v': Vol, table: seq<nat>, table': seq<nat>, inodes: nat, b: nat)
    requires |v.owner| == |v.blocks| && |v'.owner| == |v'.blocks|
    requires |v.pools| == |v'.pools| == 3 && TableOk(v, table, inodes)
    requires Issued(v, v', DINODEMGR, b, Dino(inodes))
    requires |table'| > inodes && table'[..inodes] == table[..inodes] && table'[inodes] == b
    requires forall k :: 0 <= k < inodes ==> table[k] < b && table[k] < |v.owner|
    ensures forall k :: 0 <= k < inodes + 1 ==> table'[k] < |v'.owner| && v'.owner[table'[k]] == Dino(k)
    ensures forall c :: 0 <= c < |v'.owner| ==> v'.owner[c].Dino? ==>
              v'.owner[c].ino < inodes + 1 && table'[v'.owner[c].ino] == c
  {
    forall k | 0 <= k < inodes
      ensures table'[k] == table[k] && v'.owner[table'[k]] == Dino(k)
    {
      assert table'[k] == table'[..inodes][k] == table[..inodes][k];
      assert v.owner[table[k]] == Dino(k);
    }
  }

  lemma TableExtends(v: Vol, table: seq<nat>)
    requires |v.pools| == 3
    ensures table <= TableAfter(v, table)
  {
  }

  /** The pool of dinode blocks after the next one was issued. */
  function PoolAfter(v: Vol): Pool
    requires |v.pools| == 3
  {
    var p := v.pools[DINODEMGR];
    if p.lo < p.hi then Pool(p.lo + 1, p.hi) else Pool(|v.blocks| + 1, |v.blocks| + BULKS)
  }

  lemma TableGrows(v: Vol, table: seq<nat>, inodes: nat)
    requires |v.pools| == 3 && TableShape(table, inodes, v.pools[DINODEMGR], v.org)
    requires forall k :: 0 <= k < inodes ==> table[k] < NextIssue(v, DINODEMGR)
    ensures var table' := TableAfter(v, table);
            && TableShape(table', inodes + 1, PoolAfter(v), v.org)
            && table'[..inodes] == table[..inodes] && table'[inodes] == NextIssue(v, DINODEMGR)
  {
    var p := v.pools[DINODEMGR];
    var table' := TableAfter(v, table);
    if p.lo == p.hi {
      var bulk := Blocks(Ext(|table|, |v.blocks|, BULKS));
      assert forall k :: 0 <= k < BULKS ==> table'[inodes + k] == bulk[k] == |v.blocks| + k;
    }
  }

  /** The k-th issued dinode block is the k-th table entry, also across bulks. */
  lemma TableIssues(v: Vol, table: seq<nat>, inodes: nat)
    requires SpaceOk(v) && TableOk(v, table, inodes)
    ensures var v' := Allocated(v, DINODEMGR, Dino(inodes));
            && |v'.owner| == |v'.blocks|
            && TableOk(v', TableAfter(v, table), inodes + 1)
            && |TableAfter(v, table)| > inodes
            && TableAfter(v, table)[inodes] == NextIssue(v, DINODEMGR)
  {
    hide SpaceOk, IssuedAllBelow, FreeBulk, Issued, NextIssue, TableAfter, PoolOk;
    SpaceShape(v);
    HeadIsNext(v, DINODEMGR);
    var v' := Allocated(v, DINODEMGR, Dino(inodes));
    var b := NextIssue(v, DINODEMGR);
    AllocatedIssues(v, DINODEMGR, Dino(inodes));
    IssuedBelow(v, DINODEMGR);
    TableBelow(v, table, inodes, b);
    TableGrows(v, table, inodes);
    TableTags(v, v', table, TableAfter(v, table), inodes, b);
    assert v'.pools[DINODEMGR] == PoolAfter(v) && v'.org == v.org;
  }

  /** When the dinode free list is empty, every mapped inode is in use and their number is a multiple of the bulk. */
  lemma BulkBoundary(v: Vol, nodes: seq<Node>)
    requires VolOk(v, nodes)
    ensures Head(v.pools[DINODEMGR]) == TARBLK_NONE <==> |Table(nodes)| == |nodes|
    ensures |Table(nodes)| == |nodes| ==> |nodes| % 256 == 0
    ensures Table(nodes)[0] == v.org && Table(nodes)[1] == v.org + 1
  {
    assert PoolOk(v, DINODEMGR);
  }

  lemma TagsFrame(v: Vol, v': Vol, t: set<Class>, inodes: nat)
    requires Frame(v, v', t) && TagsOk(v, inodes)
    requires forall i: nat :: (KDir(i) in t || KChain(i) in t) ==> i < inodes
    ensures TagsOk(v', inodes)
  {
  }

  /** Inodes the step does not touch stay as they are. */
  lemma NodesFrame(v: Vol, v': Vol, t: set<Class>, nodes: seq<Node>, skip: nat)
    requires Frame(v, v', t) && AllNodesOk(v, nodes)
    requires forall i :: 0 <= i < |nodes| && i != skip ==> KDir(i) !in t && KChain(i) !in t
    ensures forall i :: 0 <= i < |nodes| && i != skip ==> NodeOk(v', i, nodes[i])
  {
    forall i | 0 <= i < |nodes| && i != skip
      ensures NodeOk(v', i, nodes[i])
    {
      NodeFrame(v, v', t, i, nodes[i]);
    }
  }

  lemma NodesReplaced(v: Vol, nodes: seq<Node>, d: nat, n: Node)
    requires d < |nodes| && NodeOk(v, d, n)
    requires forall i :: 0 <= i < |nodes| && i != d ==> NodeOk(v, i, nodes[i])
    ensures AllNodesOk(v, nodes[d := n])
  {
    hide NodeOk;
  }

  /** A step that changes one directory's blocks. */
  lemma VolUpdate(v: Vol, v': Vol, nodes: seq<Node>, d: nat, n: Node)
    requires VolOk(v, nodes) && SpaceOk(v') && 0 < d < |nodes|
    requires Frame(v, v', {KDir(d), KChain(d)}) && v'.pools[DINODEMGR] == v.pools[DINODEMGR]
    requires NodeOk(v', d, n)
    ensures VolOk(v', nodes[d := n])
  {
    var t := {KDir(d), KChain(d)};
    assert |v.pools| == |v'.pools| == 3;
    hide SpaceOk, Frame, NodeOk, TableOk, TagsOk, Flat, AllNodesOk;
    NodesFrame(v, v', t, nodes, d);
    NodesReplaced(v', nodes, d, n);
    TableFrame(v, v', t, Table(nodes), |nodes|);
    TagsFrame(v, v', t, |nodes|);
  }

  /** A step of a directory that is open in memory leaves the dinodes on disk alone. */
  lemma SyncedUpdate(v: Vol, v': Vol, nodes: seq<Node>, d: nat, n: Node, open: set<nat>)
    requires VolOk(v, nodes) && 0 < d < |nodes| && d in open
    requires Frame(v, v', {KDir(d), KChain(d)})
    requires Synced(v, nodes, open)
    ensures Synced(v', nodes[d := n], open)
  {
    SyncedFrame(v, v', {KDir(d), KChain(d)}, nodes, open);
  }

  /** Writing the dinode of `d` to its block. */
  lemma SyncedWrite(v: Vol, v': Vol, nodes: seq<Node>, d: nat, open: set<nat>)
    requires VolOk(v, nodes) && d < |nodes|
    requires Table(nodes)[d] < |v.blocks|
    requires v' == v.(blocks := v.blocks[Table(nodes)[d] := DinodeBlk(nodes[d].d)])
    requires Synced(v, nodes, open)
    ensures Synced(v', nodes, open - {d})
  {
    var table := Table(nodes);
    forall i | 0 <= i < |nodes| && i !in open - {d}
      ensures table[i] < |v'.blocks| && v'.blocks[table[i]] == DinodeBlk(nodes[i].d)
    {
      assert v.owner[table[i]] == Dino(i) && v.owner[table[d]] == Dino(d);
    }
  }

  lemma VolWriteDinode(v: Vol, v': Vol, nodes: seq<Node>, d: nat)
    requires VolOk(v, nodes) && SpaceOk(v') && Frame(v, v', {KDino(d)}) && d < |nodes|
    requires v'.pools == v.pools && v'.owner == v.owner
    ensures VolOk(v', nodes)
  {
    var t := {KDino(d)};
    NodesFrame(v, v', t, nodes, |nodes|);
    assert TableOk(v', Table(nodes), |nodes|) by {
      hide SpaceOk, Frame, NodeOk, TagsOk, Flat;
    }
  }

  /** A new inode takes the newest dinode block; it may have been given blocks of its own. */
  lemma VolNew(v: Vol, v': Vol, nodes: seq<Node>, n: Node)
    requires VolOkWith(v, nodes, |nodes| + 1) && SpaceOk(v')
    requires Frame(v, v', {KDir(|nodes|), KChain(|nodes|)}) && v'.pools[DINODEMGR] == v.pools[DINODEMGR]
    requires NodeOk(v', |nodes|, n)
    ensures VolOk(v', nodes + [n])
  {
    hide SpaceOk, Frame, NodeOk, TableOk, TagsOk, Flat;
    var t := {KDir(|nodes|), KChain(|nodes|)};
    SpaceShape(v);
    SpaceShape(v');
    hide AllNodesOk;
    NodesFrame(v, v', t, nodes, |nodes|);
    NodesAppended(v', nodes, n);
    TableFrame(v, v', t, Table(nodes), |nodes| + 1);
    TagsMore(v, |nodes|);
    TagsFrame(v, v', t, |nodes| + 1);
  }

  lemma NodesAppended(v: Vol, nodes: seq<Node>, n: Node)
    requires NodeOk(v, |nodes|, n)
    requires forall i :: 0 <= i < |nodes| ==> NodeOk(v, i, nodes[i])
    ensures AllNodesOk(v, nodes + [n])
  {
    hide NodeOk;
  }

  /** No block belongs to an inode that does not exist. */
  lemma NoTags(v: Vol, inodes: nat, ino: nat)
    requires TagsOk(v, inodes) && ino >= inodes
    ensures ChainOwned(v, ino, []) && DirOwned(v, ino, [])
  {
  }

  /** A dinode block was issued; inode 0 may have grown by a bulk. */
  lemma VolIssued(v: Vol, v1: Vol, v': Vol, nodes: seq<Node>, n0: Node)
    requires VolOk(v, nodes) && |v.blocks| + BULKS <= TARBLK_NONE
    requires v1 == Allocated(v, DINODEMGR, Dino(|nodes|)) && SpaceOk(v1) && SpaceOk(v')
    requires Frame(v1, v', {KChain(FREE_INO)}) && v'.pools[DINODEMGR] == v1.pools[DINODEMGR]
    requires NodeOk(v', FREE_INO, n0) && IsTable(n0)
    requires Flat(n0.exts) == TableAfter(v, Table(nodes))
    ensures VolOkWith(v', nodes[0 := n0], |nodes| + 1) && Table(nodes) <= Table(nodes[0 := n0])
    ensures |Table(nodes[0 := n0])| > |nodes| && Table(nodes[0 := n0])[|nodes|] == NextIssue(v, DINODEMGR)
  {
    hide SpaceOk, Frame, NodeOk, TableOk, TagsOk, Flat, AllNodesOk, Allocated, TableAfter, Issued;
    var t1, t2 := {KDino(|nodes|)}, {KChain(FREE_INO)};
    TableIssues(v, Table(nodes), |nodes|);
    AllocatedOk(v, DINODEMGR, Dino(|nodes|));
    SpaceShape(v);
    SpaceShape(v1);
    SpaceShape(v');
    TagsFrame(v, v1, t1, |nodes|);
    TagsFrame(v1, v', t2, |nodes|);
    FrameTrans(v, v1, v', t1, t2);
    NodesFrame(v, v', t1 + t2, nodes, FREE_INO);
    NodesReplaced(v', nodes, FREE_INO, n0);
    TableExtends(v, Table(nodes));
    TableFrame(v1, v', t2, TableAfter(v, Table(nodes)), |nodes| + 1);
  }

  lemma TagsMore(v: Vol, inodes: nat)
    requires TagsOk(v, inodes)
    ensures TagsOk(v, inodes + 1)
  {
  }

  /** The dinodes on disk are still where the longer table says. */
  lemma SyncedIssued(v: Vol, v1: Vol, v': Vol, nodes: seq<Node>, n0: Node, open: set<nat>)
    requires VolOk(v, nodes) && |v.blocks| + BULKS <= TARBLK_NONE
    requires v1 == Allocated(v, DINODEMGR, Dino(|nodes|)) && SpaceOk(v1)
    requires Frame(v1, v', {KChain(FREE_INO)})
    requires Flat(n0.exts) == TableAfter(v, Table(nodes))
    requires Synced(v, nodes, open) && FREE_INO in open
    ensures Synced(v', nodes[0 := n0], open)
  {
    hide SpaceOk, AllNodesOk, TagsOk, Flat, Issued, Allocated;
    var table, table' := Table(nodes), Table(nodes[0 := n0]);
    AllocatedOk(v, DINODEMGR, Dino(|nodes|));
    FrameTrans(v, v1, v', {KDino(|nodes|)}, {KChain(FREE_INO)});
    SpaceShape(v);
    assert TableOk(v, table, |nodes|);
    forall i | 0 <= i < |nodes| && i !in open
      ensures i < |table'| && table'[i] == table[i] < |v'.blocks| && v'.blocks[table[i]] == DinodeBlk(nodes[i].d)
    {
      assert v.owner[table[i]] == Dino(i);
      assert table'[i] == table[i];
    }
  }

  /** The first bulk is the first table. */
  lemma FirstTable(v: Vol, v1: Vol, table: seq<nat>)
    requires SpaceOk(v) && |v.blocks| == v.org && v.pools[DINODEMGR] == Pool(0, 0)
    requires v1 == Allocated(v, DINODEMGR, Dino(FREE_INO)) && table == Blocks(Ext(0, v.org, BULKS))
    ensures |v1.pools| == 3 && TableOk(v1, table, 1) && TagsOk(v1, 1)
  {
    AllocatedIssues(v, DINODEMGR, Dino(FREE_INO));
    assert v1.owner[v.org] == Dino(0);
    hide SpaceOk, FreeBulk, PoolOk;
  }

  /** The image right after inode 0 mapped the first bulk of dinode blocks. */
  lemma VolFirst(v: Vol, v1: Vol, v': Vol, n0: Node)
    requires SpaceOk(v) && |v.blocks| == v.org && v.pools[DINODEMGR] == Pool(0, 0)
    requires v1 == Allocated(v, DINODEMGR, Dino(FREE_INO)) && SpaceOk(v') && SpaceOk(v1)
    requires Frame(v1, v', {KChain(FREE_INO)}) && v'.pools[DINODEMGR] == v1.pools[DINODEMGR]
    requires NodeOk(v', FREE_INO, n0) && IsTable(n0)
    requires Flat(n0.exts) == Blocks(Ext(0, v.org, BULKS))
    ensures VolOk(v', [n0]) && Synced(v', [n0], {FREE_INO})
  {
    hide Frame, NodeOk, SpaceOk, TableOk, TagsOk, Flat, Allocated, Blocks;
    SpaceShape(v1);
    SpaceShape(v');
    var table := Flat(n0.exts);
    FirstTable(v, v1, table);
    TableFrame(v1, v', {KChain(FREE_INO)}, table, 1);
    TagsFrame(v1, v', {KChain(FREE_INO)}, 1);
    assert Table([n0]) == table;
  }

  /** Appending the node of an inode that is still open in memory. */
  lemma SyncedNew(v: Vol, v': Vol, nodes: seq<Node>, n: Node, open: set<nat>)
    requires VolOkWith(v, nodes, |nodes| + 1) && Frame(v, v', {KDir(|nodes|), KChain(|nodes|)})
    requires Synced(v, nodes, open)
    ensures Synced(v', nodes + [n], open + {|nodes|})
  {
    hide VolOkWith, Frame, Flat;
    var nodes' := nodes + [n];
    forall i | 0 <= i < |nodes'| && i !in open + {|nodes|}
      ensures OnDisk(v'.blocks, nodes', i)
    {
      SyncedOnDisk(v, nodes, open, i);
      TableAt(v, nodes, |nodes| + 1, i);
      DinodeKept(v, v', {KDir(|nodes|), KChain(|nodes|)}, Table(nodes)[i], i);
      assert nodes'[0] == nodes[0] && nodes'[i] == nodes[i];
    }
  }

  lemma TableAt(v: Vol, nodes: seq<Node>, issued: nat, i: nat)
    requires VolOkWith(v, nodes, issued) && i < issued
    ensures |nodes| > 0 && i < |Table(nodes)| && Table(nodes)[i] < |v.owner| && v.owner[Table(nodes)[i]] == Dino(i)
  {
  }

  /** A step that leaves the dinode of inode `i` alone leaves it where it is. */
  lemma DinodeKept(v: Vol, v': Vol, t: set<Class>, b: nat, i: nat)
    requires Frame(v, v', t) && KDino(i) !in t && b < |v.owner| && v.owner[b] == Dino(i)
    ensures b < |v.blocks| && b < |v'.blocks| && v'.blocks[b] == v.blocks[b]
  {
  }

  lemma SyncedMore(v: Vol, nodes: seq<Node>, open: set<nat>, d: nat)
    requires |nodes| > 0 && Synced(v, nodes, open)
    ensures Synced(v, nodes, open + {d})
  {
  }
}
