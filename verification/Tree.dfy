/** The name space: what paths mean, and that directories agree with it. */
module Tree {
  import opened Meta
  import opened TarFile
  import opened Nodes
  import R = Records
  import opened DirBlock

  /**
    * What a path of the built file system stands for: a directory made on the way, or the latest archive entry.
    * `made` tells whether its inode was made as a directory, `data` is the latest entry that was no directory:
    * its data is what the inode maps.
    */
  datatype Entry = Implicit | Given(f: File, made: bool, data: Option<File>)

  type Fs = map<Path, Entry>

  const EMPTYFS: Fs := map[[] := Implicit]

  predicate IsDirFile(f: File) {
    f.HasHeader() && f.Fmt() == DIR
  }

  /** The path is a directory now. */
  predicate IsDirEntry(e: Entry) {
    e.Implicit? || IsDirFile(e.f)
  }

  /** Its inode was made as one. */
  predicate MadeAsDir(e: Entry) {
    e.Implicit? || e.made
  }

  /** It is a directory and was never anything else. */
  predicate IsIntact(e: Entry) {
    e.Implicit? || (IsDirFile(e.f) && e.data.None?)
  }

  function ParentPath(p: Path): Path {
    if p == [] then [] else p[..|p| - 1]
  }

  // ----- what an archive means

  /** `t` with the directories path[..1] .. path[..k] made where they are missing. */
  function WithDirs(t: Fs, path: Path, k: nat): Fs
    requires k <= |path|
  {
    if k == 0 then t
    else
      var t' := WithDirs(t, path, k - 1);
      if path[..k] in t' then t' else t'[path[..k] := Implicit]
  }

  /** The entry an inode is made for. */
  function NewEntry(f: File): Entry {
    Given(f, IsDirFile(f), if IsDirFile(f) then None else Some(f))
  }

  /** Another entry for the path of `e`: a directory leaves the data there is. */
  function ReplacedBy(e: Entry, f: File): Entry {
    Given(f, MadeAsDir(e), if !IsDirFile(f) then Some(f) else if e.Given? then e.data else None)
  }

  function GivenIn(t: Fs, f: File): Entry {
    if f.path in t then ReplacedBy(t[f.path], f) else NewEntry(f)
  }

  /** The tree after one more archive entry. */
  function AddEntry(t: Fs, f: File): Fs {
    if f.path == [] then t else
    WithDirs(t, f.path, |f.path| - 1)[f.path := GivenIn(t, f)]
  }

  /** What is a directory was never anything else. */
  predicate DirsIntact(t: Fs) {
    forall p :: p in t ==> DirIntact(t[p])
  }

  predicate DirIntact(e: Entry) {
    IsDirEntry(e) ==> IsIntact(e)
  }

  /** It is a directory that was something else. */
  predicate WasOther(e: Entry) {
    IsDirEntry(e) && !IsIntact(e)
  }

  predicate IntactIn(t: Fs, path: Path) {
    path in t ==> IsIntact(t[path])
  }

  /** What is there of path[..1] .. path[..n - 1] are intact directories. */
  predicate IntactTo(t: Fs, path: Path, n: nat)
    requires n <= |path|
  {
    forall k :: 0 < k < n ==> IntactIn(t, path[..k])
  }

  /** What is there on the way to the path are intact directories. */
  predicate Passes(t: Fs, path: Path) {
    IntactTo(t, path, |path|)
  }

  /** The way leads through intact directories to path[..k], which is there and is none. */
  predicate Obstacle(t: Fs, path: Path, k: nat)
    requires k <= |path|
  {
    IntactTo(t, path, k) && path[..k] in t && !IsIntact(t[path[..k]])
  }

  /** The obstacle is no directory: the builder gives up. */
  predicate Blocked(t: Fs, path: Path) {
    exists k :: 0 < k < |path| && Obstacle(t, path, k) && !IsDirEntry(t[path[..k]])
  }

  /** The obstacle is a directory that was something else: the builder reads archive bytes as its records. */
  predicate Strays(t: Fs, path: Path) {
    exists k :: 0 < k < |path| && Obstacle(t, path, k) && IsDirEntry(t[path[..k]])
  }

  /** A path has exactly one of the three. */
  lemma OneWay(t: Fs, path: Path, n: nat)
    requires n <= |path| && IntactTo(t, path, n)
    ensures Passes(t, path) || Blocked(t, path) || Strays(t, path)
    ensures !(Passes(t, path) && (Blocked(t, path) || Strays(t, path))) && !(Blocked(t, path) && Strays(t, path))
    decreases |path| - n
  {
    if n < |path| {
      if 0 < n && path[..n] in t && !IsIntact(t[path[..n]]) {
        assert Obstacle(t, path, n);
      } else {
        OneWay(t, path, n + 1);
      }
    }
  }

  /** The path is there, and everything on the way to it is an intact directory. */
  predicate Reaches(t: Fs, path: Path) {
    path in t && forall k :: 0 <= k < |path| ==> IntactIn(t, path[..k])
  }

  /** The tree after a list of archive entries. */
  function Build(files: seq<File>): Fs {
    if files == [] then EMPTYFS
    else AddEntry(Build(files[..|files| - 1]), files[|files| - 1])
  }

  /** Index of the last entry for path `p`, or |files|. */
  function LastFor(files: seq<File>, p: Path): (i: nat)
    ensures i <= |files|
    ensures i < |files| ==> files[i].path == p
    ensures forall j :: 0 <= j < |files| && files[j].path == p ==> i < |files| && j <= i
  {
    if files == [] then 0
    else if files[|files| - 1].path == p then |files| - 1
    else
      var i := LastFor(files[..|files| - 1], p);
      if i < |files| - 1 then i else |files|
  }

  /** Index of the last entry for path `p` that is no directory, or |files|. */
  function LastDataFor(files: seq<File>, p: Path): (i: nat)
    ensures i <= |files|
    ensures i < |files| ==> files[i].path == p && !IsDirFile(files[i])
    ensures forall j :: 0 <= j < |files| && files[j].path == p && !IsDirFile(files[j]) ==> i < |files| && j <= i
  {
    if files == [] then 0
    else if files[|files| - 1].path == p && !IsDirFile(files[|files| - 1]) then |files| - 1
    else
      var i := LastDataFor(files[..|files| - 1], p);
      if i < |files| - 1 then i else |files|
  }

  function DataFileFor(files: seq<File>, p: Path): Option<File> {
    var i := LastDataFor(files, p);
    if i < |files| then Some(files[i]) else None
  }

  /** Index of the first entry on or below path `p`, or |files|. */
  function FirstFor(files: seq<File>, p: Path): (i: nat)
    ensures i <= |files|
    ensures i < |files| ==> p <= files[i].path
    ensures forall j :: 0 <= j < i ==> !(p <= files[j].path)
  {
    if files == [] then 0
    else
      var i := FirstFor(files[..|files| - 1], p);
      if i < |files| - 1 then i
      else if p <= files[|files| - 1].path then i else |files|
  }

  /** The inode of path `p` is made as a directory: the first entry on or below it goes through it or is one. */
  predicate FirstMakesDir(files: seq<File>, p: Path) {
    var i := FirstFor(files, p);
    i < |files| && (files[i].path != p || IsDirFile(files[i]))
  }

  lemma {:induction false} WithDirsKeys(t: Fs, path: Path, k: nat)
    requires k <= |path|
    ensures forall p :: p in WithDirs(t, path, k) <==> p in t || (p <= path && 0 < |p| <= k)
    ensures forall p :: p in WithDirs(t, path, k) ==> WithDirs(t, path, k)[p] == if p in t then t[p] else Implicit
  {
    if k > 0 {
      WithDirsKeys(t, path, k - 1);
      forall p: Path
        ensures p == path[..k] <==> p <= path && |p| == k
      {
      }
    }
  }

  lemma AddEntryMeaning(t: Fs, f: File, p: Path)
    requires |f.path| > 0
    ensures p in AddEntry(t, f) <==> p in t || (p <= f.path && p != [])
    ensures p in AddEntry(t, f) ==>
              AddEntry(t, f)[p] == if p == f.path then GivenIn(t, f) else if p in t then t[p] else Implicit
  {
    WithDirsKeys(t, f.path, |f.path| - 1);
    assert p <= f.path && |p| == |f.path| ==> p == f.path;
  }

  predicate IsAncestor(files: seq<File>, p: Path) {
    exists i :: 0 <= i < |files| && p <= files[i].path
  }

  lemma IsAncestorSnoc(files: seq<File>, p: Path)
    requires files != []
    ensures IsAncestor(files, p) <==> IsAncestor(files[..|files| - 1], p) || p <= files[|files| - 1].path
  {
    var n := |files| - 1;
    if i :| 0 <= i < |files| && p <= files[i].path {
      assert i < n ==> files[..n][i] == files[i];
    }
    if i :| 0 <= i < n && p <= files[..n][i].path {
      assert files[..n][i] == files[i];
    }
  }

  /**
    * What an archive means, without replaying it: a path exists when it is a prefix of some entry's path;
    * it carries the attributes of the last entry for it and the data of the last one that is no directory, else it
    * is a directory made on the way.
    */
  lemma {:induction false} BuildMeaning(files: seq<File>, p: Path)
    requires forall f :: f in files ==> |f.path| > 0
    ensures p in Build(files) <==> p == [] || IsAncestor(files, p)
    ensures p in Build(files) ==>
              var i := LastFor(files, p);
              Build(files)[p] == if i < |files| then Given(files[i], FirstMakesDir(files, p), DataFileFor(files, p))
                                 else Implicit
    ensures p in Build(files) && p != [] ==> (MadeAsDir(Build(files)[p]) <==> FirstMakesDir(files, p))
  {
    if files != [] {
      var n := |files| - 1;
      var init := files[..n];
      BuildMeaning(init, p);
      IsAncestorSnoc(files, p);
      AddEntryMeaning(Build(init), files[n], p);
      FirstSnoc(files, p);
      DataSnoc(files, p);
      hide DataFileFor, FirstMakesDir, IsAncestor, IsDirFile, AddEntry;
      assert LastFor(init, p) < n ==> init[LastFor(init, p)] == files[LastFor(init, p)];
    }
  }

  lemma DataSnoc(files: seq<File>, p: Path)
    requires files != []
    ensures var n := |files| - 1;
            && DataFileFor(files, p) == (if files[n].path == p && !IsDirFile(files[n]) then Some(files[n])
                                         else DataFileFor(files[..n], p))
            && (LastFor(files[..n], p) == n ==> DataFileFor(files[..n], p) == None)
  {
    var n := |files| - 1;
    hide LastFor, IsDirFile;
    var i := LastDataFor(files[..n], p);
    assert i < n ==> files[..n][i] == files[i];
  }

  lemma FirstSnoc(files: seq<File>, p: Path)
    requires files != []
    ensures var n := |files| - 1;
            FirstMakesDir(files, p)
            <==> if IsAncestor(files[..n], p) then FirstMakesDir(files[..n], p)
                 else p <= files[n].path && (files[n].path != p || IsDirFile(files[n]))
  {
    var n := |files| - 1;
    var i := FirstFor(files[..n], p);
    if i < n {
      assert files[..n][i] == files[i];
    } else {
      assert forall j :: 0 <= j < n ==> files[..n][j] == files[j];
    }
  }

  // ----- names on disk

  predicate DistinctNames(live: seq<(Name, nat)>) {
    forall i, j :: 0 <= i < j < |live| ==> live[i].0 != live[j].0
  }

  function ParentIno(index: map<Path, nat>, p: Path): nat {
    if ParentPath(p) in index then index[ParentPath(p)] else ROOT_INO
  }

  /** What name `name` should mean in the directory with path `p`. */
  function Child(index: map<Path, nat>, p: Path, ino: nat, name: Name): Option<nat> {
    if name == R.DOT then Some(ino)
    else if name == R.DOTDOT then Some(ParentIno(index, p))
    else if p + [name] in index then Some(index[p + [name]])
    else None
  }

  /** The records of directory `ino` name exactly its children, itself and its parent, each once. */
  ghost predicate DirNames(index: map<Path, nat>, ino: nat, n: Node) {
    && (forall name :: R.Lookup(n.recs, name) == Child(index, n.path, ino, name))
    && DistinctNames(R.Live(n.recs))
  }

  /** The inodes made as directories in the directory with path `p`. */
  function Subdirs(nodes: seq<Node>, p: Path): set<nat> {
    set j: nat | ROOT_INO < j < |nodes| && MadeDir(nodes[j]) && ParentPath(nodes[j].path) == p
  }

  /** di_nlink counts the directory's own two names and the ".." of the subdirectories made in it. */
  predicate NlinkOk(nodes: seq<Node>, i: nat)
    requires i < |nodes|
  {
    nodes[i].d.nlink == if MadeDir(nodes[i]) then 2 + |Subdirs(nodes, nodes[i].path)| else 1
  }

  predicate PathsOk(nodes: seq<Node>, index: map<Path, nat>) {
    && [] in index && index[[]] == ROOT_INO && ROOT_INO < |nodes| && MadeDir(nodes[ROOT_INO])
    && (forall p :: p in index ==> 0 < index[p] < |nodes| && nodes[index[p]].path == p)
    && (forall i :: 0 < i < |nodes| ==> nodes[i].path in index && index[nodes[i].path] == i)
    && (forall p :: p in index && p != [] ==>
          && ParentPath(p) in index && MadeDir(nodes[index[ParentPath(p)]])
          && p[|p| - 1] != R.DOT && p[|p| - 1] != R.DOTDOT)
  }

  ghost predicate TreeOk(nodes: seq<Node>, index: map<Path, nat>) {
    && PathsOk(nodes, index)
    && (forall i :: 0 < i < |nodes| && MadeDir(nodes[i]) ==> DirNames(index, i, nodes[i]))
    && (forall i :: 0 < i < |nodes| ==> NlinkOk(nodes, i))
    && nodes[ROOT_INO].intact
  }

  // ----- one more inode

  lemma DotLookup(ino: nat, pino: nat, name: Name)
    requires ino < TARBLK_NONE && pino < TARBLK_NONE
    ensures R.Lookup(DotRecs(ino, pino), name) ==
            if name == R.DOT then Some(ino) else if name == R.DOTDOT then Some(pino) else None
  {
    var recs := DotRecs(ino, pino);
    assert recs[..1] == [recs[0]];
    assert [recs[0]][..0] == [];
    var g := R.Find(recs, name);
    assert g == 0 || g == 1 || g == 2;
  }

  lemma DotLive(ino: nat, pino: nat)
    requires ino < TARBLK_NONE && pino < TARBLK_NONE
    ensures R.Live(DotRecs(ino, pino)) == [(R.DOT, ino), (R.DOTDOT, pino)]
  {
    R.LiveTwo(DotRecs(ino, pino)[0], DotRecs(ino, pino)[1]);
  }

  lemma {:induction false} AssocIn(live: seq<(Name, nat)>, name: Name)
    requires R.Assoc(live, name) == None
    ensures forall i :: 0 <= i < |live| ==> live[i].0 != name
  {
    if live != [] {
      AssocIn(live[1..], name);
      forall i | 0 <= i < |live|
        ensures live[i].0 != name
      {
        assert i > 0 ==> live[i] == live[1..][i - 1];
      }
    }
  }

  lemma DistinctInserted(s: seq<(Name, nat)>, x: (Name, nat), s': seq<(Name, nat)>, at: nat)
    requires DistinctNames(s) && R.Inserted(s, x, s', at)
    requires forall i :: 0 <= i < |s| ==> s[i].0 != x.0
    ensures DistinctNames(s')
  {
    forall i, j | 0 <= i < j < |s'|
      ensures s'[i].0 != s'[j].0
    {
      var i0 := if i < at then i else i - 1;
      var j0 := if j < at then j else j - 1;
      assert i != at ==> s'[i] == s[i0];
      assert j != at ==> s'[j] == s[j0];
    }
  }

  /** Adding the name of a new inode keeps names distinct and maps just that name to it. */
  lemma NameAdded(recs: seq<R.Rec>, name: Name, ino: nat, ftype: byte)
    requires R.Lookup(recs, name) == None && DistinctNames(R.Live(recs)) && ino != TARBLK_NONE
    ensures DistinctNames(R.Live(R.Added(recs, name, ino, ftype)))
    ensures forall other :: R.Lookup(R.Added(recs, name, ino, ftype), other)
                         == if other == name then Some(ino) else R.Lookup(recs, other)
  {
    hide R.Live, R.Added, R.Assoc, R.Lookup, R.Inserted;
    var at := R.AddedInserts(recs, name, ino, ftype);
    R.LookupIsAssoc(recs, name);
    AssocIn(R.Live(recs), name);
    DistinctInserted(R.Live(recs), (name, ino), R.Live(R.Added(recs, name, ino, ftype)), at);
    forall other
      ensures R.Lookup(R.Added(recs, name, ino, ftype), other)
           == if other == name then Some(ino) else R.Lookup(recs, other)
    {
      R.AddedLookup(recs, name, ino, ftype, other);
    }
  }

  predicate SameDirAttrs(d: Dinode, d': Dinode) {
    && d'.perm == d.perm && d'.uid == d.uid && d'.gid == d.gid && d'.header == d.header
    && d'.mtime == d.mtime && d'.atime == d.atime && d'.ctime == d.ctime
  }

  /** What a directory's node becomes when inode `ino` is entered as `name`. */
  predicate Linked(n: Node, n': Node, name: Name, ino: nat, ftype: byte, isDir: bool) {
    && n'.path == n.path && n'.d.fmt == DIR && n'.intact && SameDirAttrs(n.d, n'.d)
    && n'.recs == R.Added(n.recs, name, ino, ftype)
    && n'.d.nlink == n.d.nlink + if isDir then 1 else 0
  }

  /** n0: before; n1: the new inode is issued; n2: it is entered in directory `d`. */
  predicate Enters(n0: seq<Node>, n1: seq<Node>, n2: seq<Node>, d: nat, name: Name, new_: Node, ftype: byte) {
    && 0 < d < |n0| < TARBLK_NONE && |n1| == |n2| == |n0| + 1
    && n1 == n0[0 := n1[0]] + [new_] && n2 == n1[d := n2[d]]
    && n0[d].d.fmt == DIR && n0[d].intact && MadeDir(n0[d])
    && Linked(n0[d], n2[d], name, |n0|, ftype, new_.d.fmt == DIR)
    && new_.path == n0[d].path + [name]
    && new_.d.nlink == (if new_.d.fmt == DIR then 2 else 1)
    && new_.recs == (if new_.d.fmt == DIR then DotRecs(|n0|, d) else [])
  }

  /** `nodes'` is `nodes` plus a new inode named `name` in directory `d`; inode 0 may differ. */
  predicate NodeAdded(nodes: seq<Node>, nodes': seq<Node>, d: nat, name: Name, ftype: byte) {
    var n := |nodes|;
    && 0 < d < n && |nodes'| == n + 1 && n < TARBLK_NONE
    && (forall i :: 0 < i < n && i != d ==> nodes'[i] == nodes[i])
    && nodes[d].d.fmt == DIR && nodes'[d].d.fmt == DIR && nodes'[d].path == nodes[d].path
    && nodes[d].intact && nodes'[d].intact && MadeDir(nodes[d]) && MadeDir(nodes'[d])
    && SameDirAttrs(nodes[d].d, nodes'[d].d)
    && nodes'[d].recs == R.Added(nodes[d].recs, name, n, ftype)
    && nodes'[d].d.nlink == nodes[d].d.nlink + (if MadeDir(nodes'[n]) then 1 else 0)
    && nodes'[n].path == nodes[d].path + [name]
    && nodes'[n].d.nlink == (if MadeDir(nodes'[n]) then 2 else 1)
    && (MadeDir(nodes'[n]) ==> nodes'[n].recs == DotRecs(n, d))
  }

  /** Paths and kinds of the old inodes stay; the new one is a child of directory `d`. */
  predicate ShapeAdded(nodes: seq<Node>, nodes': seq<Node>, d: nat, name: Name) {
    var n := |nodes|;
    && 0 < d < n && |nodes'| == n + 1 && MadeDir(nodes[d])
    && (forall i :: 0 < i < n ==>
          nodes'[i].path == nodes[i].path && (MadeDir(nodes'[i]) <==> MadeDir(nodes[i])))
    && nodes'[n].path == nodes[d].path + [name]
  }

  lemma AddedShape(nodes: seq<Node>, nodes': seq<Node>, d: nat, name: Name, ftype: byte)
    requires NodeAdded(nodes, nodes', d, name, ftype)
    ensures ShapeAdded(nodes, nodes', d, name)
    ensures ROOT_INO < |nodes| && nodes[ROOT_INO].intact ==> nodes'[ROOT_INO].intact
  {
    hide R.Added, DotRecs;
    forall i | 0 < i < |nodes|
      ensures nodes'[i].path == nodes[i].path && (MadeDir(nodes'[i]) <==> MadeDir(nodes[i]))
    {
      assert i != d ==> nodes'[i] == nodes[i];
    }
  }

  lemma ParentOfChild(p: Path, name: Name)
    ensures ParentPath(p + [name]) == p && p + [name] != p && (p + [name])[|p|] == name
  {
  }

  lemma PathsAdd(nodes: seq<Node>, nodes': seq<Node>, index: map<Path, nat>, d: nat, name: Name)
    requires PathsOk(nodes, index) && ShapeAdded(nodes, nodes', d, name)
    requires nodes[d].path + [name] !in index && name != R.DOT && name != R.DOTDOT
    ensures PathsOk(nodes', index[nodes[d].path + [name] := |nodes|])
  {
    var p := nodes[d].path + [name];
    ParentOfChild(nodes[d].path, name);
    hide ParentPath;
    PathsAddKeys(nodes, nodes', index, d, name);
    PathsAddParents(nodes, nodes', index, d, name);
  }

  lemma PathsAddKeys(nodes: seq<Node>, nodes': seq<Node>, index: map<Path, nat>, d: nat, name: Name)
    requires PathsOk(nodes, index) && ShapeAdded(nodes, nodes', d, name)
    requires nodes[d].path + [name] !in index
    ensures var index' := index[nodes[d].path + [name] := |nodes|];
            && (forall q :: q in index' ==> 0 < index'[q] < |nodes'| && nodes'[index'[q]].path == q)
            && (forall i :: 0 < i < |nodes'| ==> nodes'[i].path in index' && index'[nodes'[i].path] == i)
  {
    hide ParentPath;
  }

  lemma PathsAddParents(nodes: seq<Node>, nodes': seq<Node>, index: map<Path, nat>, d: nat, name: Name)
    requires PathsOk(nodes, index) && ShapeAdded(nodes, nodes', d, name)
    requires nodes[d].path + [name] !in index && name != R.DOT && name != R.DOTDOT
    ensures var index' := index[nodes[d].path + [name] := |nodes|];
            forall q :: q in index' && q != [] ==>
              && ParentPath(q) in index' && MadeDir(nodes'[index'[ParentPath(q)]])
              && q[|q| - 1] != R.DOT && q[|q| - 1] != R.DOTDOT
  {
    var p := nodes[d].path + [name];
    var index' := index[p := |nodes|];
    ParentOfChild(nodes[d].path, name);
    assert index[nodes[d].path] == d;
    hide ParentPath;
    forall q | q in index' && q != []
      ensures && ParentPath(q) in index' && MadeDir(nodes'[index'[ParentPath(q)]])
              && q[|q| - 1] != R.DOT && q[|q| - 1] != R.DOTDOT
    {
      if q != p {
        assert ParentPath(q) in index;
      }
    }
  }

  lemma NewNames(nodes: seq<Node>, index: map<Path, nat>, d: nat, p: Path, n: nat, recs: seq<R.Rec>)
    requires PathsOk(nodes, index) && p !in index && p != [] && ParentPath(p) in index && index[ParentPath(p)] == d
    requires n < TARBLK_NONE && d < TARBLK_NONE && recs == DotRecs(n, d)
    ensures forall other :: R.Lookup(recs, other) == Child(index[p := n], p, n, other)
    ensures DistinctNames(R.Live(recs))
  {
    DotLive(n, d);
    forall other
      ensures R.Lookup(recs, other) == Child(index[p := n], p, n, other)
    {
      hide R.Lookup, R.Live, DotRecs;
      DotLookup(n, d, other);
      ParentOfChild(p, other);
    }
  }

  lemma OldNames(nodes: seq<Node>, index: map<Path, nat>, i: nat, recs: seq<R.Rec>, p: Path, n: nat)
    requires PathsOk(nodes, index) && 0 < i < |nodes| && DirNames(index, i, nodes[i])
    requires p !in index && p != []
    requires recs == nodes[i].recs && ParentPath(p) != nodes[i].path
    ensures forall other :: R.Lookup(recs, other) == Child(index[p := n], nodes[i].path, i, other)
  {
    hide R.Lookup, R.Live;
    var q := nodes[i].path;
    forall other
      ensures R.Lookup(recs, other) == Child(index[p := n], q, i, other)
    {
      assert R.Lookup(nodes[i].recs, other) == Child(index, q, i, other);
      ParentOfChild(q, other);
      assert ParentPath(q) in index;
    }
  }

  lemma ParentNames(nodes: seq<Node>, index: map<Path, nat>, d: nat, name: Name, ftype: byte, n: nat)
    requires PathsOk(nodes, index) && 0 < d < |nodes| && DirNames(index, d, nodes[d])
    requires nodes[d].path + [name] !in index && name != R.DOT && name != R.DOTDOT && n < TARBLK_NONE
    ensures var recs := R.Added(nodes[d].recs, name, n, ftype);
            && DistinctNames(R.Live(recs))
            && forall other :: R.Lookup(recs, other)
                            == Child(index[nodes[d].path + [name] := n], nodes[d].path, d, other)
  {
    var q := nodes[d].path;
    ParentKnown(nodes, index, d);
    hide R.Lookup, R.Live, R.Added, PathsOk, DistinctNames, ParentPath;
    var recs := R.Added(nodes[d].recs, name, n, ftype);
    assert R.Lookup(nodes[d].recs, name) == Child(index, q, d, name);
    NameAdded(nodes[d].recs, name, n, ftype);
    hide Child;
    forall other
      ensures R.Lookup(recs, other) == Child(index[q + [name] := n], q, d, other)
    {
      assert R.Lookup(nodes[d].recs, other) == Child(index, q, d, other);
      ChildAdded(index, q, d, name, n, other);
    }
  }

  lemma ParentKnown(nodes: seq<Node>, index: map<Path, nat>, d: nat)
    requires PathsOk(nodes, index) && 0 < d < |nodes|
    ensures nodes[d].path in index && ParentPath(nodes[d].path) in index
  {
  }

  /** Only the new name changes its meaning in directory `d`. */
  lemma ChildAdded(index: map<Path, nat>, q: Path, d: nat, name: Name, n: nat, other: Name)
    requires q + [name] !in index && name != R.DOT && name != R.DOTDOT && ParentPath(q) in index
    ensures Child(index[q + [name] := n], q, d, other) == if other == name then Some(n) else Child(index, q, d, other)
  {
    ParentOfChild(q, other);
    ParentOfChild(q, name);
  }

  lemma NamesAdd(nodes: seq<Node>, nodes': seq<Node>, index: map<Path, nat>, d: nat, name: Name, ftype: byte, i: nat)
    requires TreeOk(nodes, index) && NodeAdded(nodes, nodes', d, name, ftype)
    requires nodes[d].path + [name] !in index && name != R.DOT && name != R.DOTDOT
    requires 0 < i < |nodes'| && MadeDir(nodes'[i])
    ensures DirNames(index[nodes[d].path + [name] := |nodes|], i, nodes'[i])
  {
    hide R.Lookup, R.Live, R.Added, DotRecs, NlinkOk;
    var p := nodes[d].path + [name];
    ParentOfChild(nodes[d].path, name);
    if i == |nodes| {
      NewNames(nodes, index, d, p, i, nodes'[i].recs);
    } else if i == d {
      ParentNames(nodes, index, d, name, ftype, |nodes|);
    } else {
      assert nodes'[i] == nodes[i] && DirNames(index, i, nodes[i]);
      assert index[nodes[i].path] == i && index[nodes[d].path] == d;
      OldNames(nodes, index, i, nodes[i].recs, p, |nodes|);
    }
  }

  lemma SubdirsNone(nodes: seq<Node>, index: map<Path, nat>, p: Path)
    requires PathsOk(nodes, index) && p !in index && p != []
    ensures Subdirs(nodes, p) == {}
  {
    forall j | ROOT_INO < j < |nodes| && MadeDir(nodes[j])
      ensures ParentPath(nodes[j].path) != p
    {
      assert nodes[j].path in index && index[nodes[j].path] == j;
    }
  }

  lemma SubdirsAdd(nodes: seq<Node>, nodes': seq<Node>, d: nat, name: Name, q: Path)
    requires ShapeAdded(nodes, nodes', d, name)
    ensures Subdirs(nodes', q) == if q == nodes[d].path && MadeDir(nodes'[|nodes|])
                                  then Subdirs(nodes, q) + {|nodes|} else Subdirs(nodes, q)
  {
    ParentOfChild(nodes[d].path, name);
    hide ParentPath;
  }

  lemma NlinkAdd(nodes: seq<Node>, nodes': seq<Node>, index: map<Path, nat>, d: nat, name: Name, ftype: byte, i: nat)
    requires TreeOk(nodes, index) && NodeAdded(nodes, nodes', d, name, ftype)
    requires nodes[d].path + [name] !in index && 0 < i < |nodes'|
    ensures NlinkOk(nodes', i)
  {
    hide R.Added, DirNames, DotRecs, Subdirs;
    AddedShape(nodes, nodes', d, name, ftype);
    SubdirsAdd(nodes, nodes', d, name, nodes'[i].path);
    ParentOfChild(nodes[d].path, name);
    if i == |nodes| {
      SubdirsNone(nodes, index, nodes'[i].path);
    } else {
      assert NlinkOk(nodes, i);
      assert index[nodes[i].path] == i && index[nodes[d].path] == d;
      NotSubdir(nodes, nodes[d].path);
    }
  }

  lemma NotSubdir(nodes: seq<Node>, p: Path)
    ensures |nodes| !in Subdirs(nodes, p)
  {
  }

  /** A new named inode keeps the tree consistent. */
  lemma TreeAdd(nodes: seq<Node>, nodes': seq<Node>, index: map<Path, nat>, d: nat, name: Name, ftype: byte)
    requires TreeOk(nodes, index) && NodeAdded(nodes, nodes', d, name, ftype)
    requires nodes[d].path + [name] !in index && name != R.DOT && name != R.DOTDOT
    ensures TreeOk(nodes', index[nodes[d].path + [name] := |nodes|])
  {
    hide NodeAdded, DirNames, NlinkOk;
    AddedShape(nodes, nodes', d, name, ftype);
    PathsAdd(nodes, nodes', index, d, name);
    var index' := index[nodes[d].path + [name] := |nodes|];
    forall i | 0 < i < |nodes'| && MadeDir(nodes'[i])
      ensures DirNames(index', i, nodes'[i])
    {
      NamesAdd(nodes, nodes', index, d, name, ftype, i);
    }
    forall i | 0 < i < |nodes'|
      ensures NlinkOk(nodes', i)
    {
      NlinkAdd(nodes, nodes', index, d, name, ftype, i);
    }
  }

  /** An inode with new attributes but the same links and names. */
  predicate SameNaming(n: Node, n': Node) {
    n'.path == n.path && n'.d.nlink == n.d.nlink && n'.recs == n.recs
  }

  lemma TreeSame(nodes: seq<Node>, nodes': seq<Node>, index: map<Path, nat>)
    requires TreeOk(nodes, index) && |nodes'| == |nodes|
    requires forall i :: 0 < i < |nodes| ==> SameNaming(nodes[i], nodes'[i])
    requires nodes'[ROOT_INO].intact
    ensures TreeOk(nodes', index)
  {
    hide R.Lookup, R.Live;
    forall q: Path
      ensures Subdirs(nodes', q) == Subdirs(nodes, q)
    {
      hide ParentPath;
    }
    forall j | 0 < j < |nodes|
      ensures NlinkOk(nodes', j)
    {
      assert NlinkOk(nodes, j) && SameNaming(nodes[j], nodes'[j]);
    }
    forall j | 0 < j < |nodes| && MadeDir(nodes'[j])
      ensures DirNames(index, j, nodes'[j])
    {
      assert SameNaming(nodes[j], nodes'[j]) && DirNames(index, j, nodes[j]);
    }
    assert PathsOk(nodes', index) by {
      forall j | 0 < j < |nodes|
        ensures nodes'[j].path == nodes[j].path && (MadeDir(nodes'[j]) <==> MadeDir(nodes[j]))
      {
        assert SameNaming(nodes[j], nodes'[j]);
      }
    }
  }

  // ----- attributes

  /** Dinode `d` carries what tree entry `e` says: default attributes, or those of the archive entry. */
  predicate Describes(d: Dinode, e: Entry) {
    match e
    case Implicit =>
      d.fmt == DIR && d.perm == DEFAULT_PERM && d.uid == 0 && d.gid == 0 && d.header == TARBLK_NONE
    case Given(f, _, data) =>
      && f.HasHeader() && d.fmt == f.Fmt() && d.perm == f.Perm() && d.uid == f.Uid() && d.gid == f.Gid()
      && d.header == f.blknoHeader && d.mtime == d.atime == d.ctime == f.Usec()
      && (data.Some? ==>
            data.value.HasHeader() && d.size == data.value.FileSize() && d.blocks == data.value.Blocks())
  }

  /** What is no directory has the data of its own entry. */
  predicate OwnData(e: Entry) {
    e.Given? && !IsDirFile(e.f) ==> e.data == Some(e.f)
  }

  /** Inode `n` is what tree entry `e` says, down to the data extent of the archive entry. */
  predicate EntryOk(n: Node, e: Entry) {
    && Describes(n.d, e) && OwnData(e) && (e.Given? && e.data.Some? ==> n.exts == FileExts(e.data.value))
    && (MadeDir(n) <==> MadeAsDir(e)) && (n.intact <==> IsIntact(e))
  }

  lemma KindOf(n: Node, e: Entry)
    requires EntryOk(n, e)
    ensures n.d.fmt == DIR <==> IsDirEntry(e)
    ensures (MadeDir(n) <==> MadeAsDir(e)) && (n.intact <==> IsIntact(e)) && (IsIntact(e) ==> IsDirEntry(e))
  {
  }

  /** The inodes named by `index` are exactly the tree `t`. */
  predicate Represents(nodes: seq<Node>, index: map<Path, nat>, t: Fs) {
    && index.Keys == t.Keys
    && forall p :: p in t ==> index[p] < |nodes| && EntryOk(nodes[index[p]], t[p])
  }

  lemma RepresentsAdd(nodes: seq<Node>, nodes': seq<Node>, index: map<Path, nat>, t: Fs,
                      d: nat, name: Name, ftype: byte, e: Entry)
    requires Represents(nodes, index, t) && PathsOk(nodes, index)
    requires NodeAdded(nodes, nodes', d, name, ftype) && EntryOk(nodes'[|nodes|], e)
    requires nodes[d].path + [name] !in index
    ensures Represents(nodes', index[nodes[d].path + [name] := |nodes|], t[nodes[d].path + [name] := e])
  {
    hide R.Added, DotRecs, EntryOk, PathsOk;
    var p := nodes[d].path + [name];
    forall q | q in t
      ensures index[q] < |nodes'| && EntryOk(nodes'[index[q]], t[q])
    {
      IndexPositive(nodes, index, q);
      if index[q] == d {
        EntryLinked(nodes[d], nodes'[d], t[q]);
      } else {
        assert nodes'[index[q]] == nodes[index[q]];
      }
    }
  }

  lemma IndexPositive(nodes: seq<Node>, index: map<Path, nat>, q: Path)
    requires PathsOk(nodes, index) && q in index
    ensures 0 < index[q] < |nodes|
  {
  }

  /** A directory that got a name is what its entry says. */
  lemma EntryLinked(n: Node, n': Node, e: Entry)
    requires EntryOk(n, e) && n.d.fmt == DIR && n'.d.fmt == DIR && SameDirAttrs(n.d, n'.d)
    requires n.intact && n'.intact && MadeDir(n) && MadeDir(n')
    ensures EntryOk(n', e)
  {
  }

  lemma RepresentsSet(nodes: seq<Node>, index: map<Path, nat>, t: Fs, p: Path, n: Node, e: Entry)
    requires Represents(nodes, index, t) && PathsOk(nodes, index) && p in t && EntryOk(n, e)
    ensures Represents(nodes[index[p] := n], index, t[p := e])
  {
    hide EntryOk;
    OneInode(nodes, index, p);
    hide PathsOk;
    var i := index[p];
    forall q | q in t
      ensures index[q] < |nodes| && EntryOk(nodes[i := n][index[q]], t[p := e][q])
    {
      assert q != p ==> index[q] != i && EntryOk(nodes[index[q]], t[q]);
    }
  }

  /** No other path has the inode of `p`. */
  lemma OneInode(nodes: seq<Node>, index: map<Path, nat>, p: Path)
    requires PathsOk(nodes, index) && p in index
    ensures forall q :: q in index && q != p ==> index[q] != index[p]
  {
    forall q | q in index && q != p
      ensures index[q] != index[p]
    {
      assert nodes[index[q]].path == q && nodes[index[p]].path == p;
    }
  }

  /** In every directory a name means exactly the path it extends to. */
  lemma NameTarget(nodes: seq<Node>, index: map<Path, nat>, t: Fs, i: nat, name: Name)
    requires TreeOk(nodes, index) && Represents(nodes, index, t)
    requires 0 < i < |nodes| && MadeDir(nodes[i]) && name != R.DOT && name != R.DOTDOT
    ensures var p := nodes[i].path + [name];
            && (p in t <==> p in index)
            && R.Lookup(nodes[i].recs, name) == (if p in index then Some(index[p]) else None)
            && (p in index ==>
                  && ROOT_INO < index[p] < |nodes| && index[p] != i && nodes[index[p]].path == p
                  && EntryOk(nodes[index[p]], t[p]))
  {
    hide R.Lookup, EntryOk, NlinkOk, R.Live, DistinctNames, ParentPath, MadeDir;
    var p := nodes[i].path + [name];
    assert DirNames(index, i, nodes[i]);
    assert R.Lookup(nodes[i].recs, name) == Child(index, nodes[i].path, i, name);
    ParentOfChild(nodes[i].path, name);
    if p in index {
      assert nodes[index[p]].path == p;
    }
  }

  /** Only what was made as a directory has children. */
  lemma {:induction false} PrefixClosed(nodes: seq<Node>, index: map<Path, nat>, path: Path, k: nat)
    requires PathsOk(nodes, index) && path in index && k <= |path|
    ensures path[..k] in index
    ensures k < |path| ==> MadeDir(nodes[index[path[..k]]])
    decreases |path| - k
  {
    if k < |path| {
      PrefixClosed(nodes, index, path, k + 1);
      var p := path[..k + 1];
      assert ParentPath(p) == path[..k];
    } else {
      assert path[..k] == path;
    }
  }
}
