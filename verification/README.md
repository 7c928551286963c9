# tarfs metadata builder: model and proofs

tarfs turns a tar archive into a read-only file system without touching the archive: `mkfs_tarfs` appends inodes,
directories, extent maps and free lists behind the last archive block, and a superblock as the new last block of the
file. `detachtarfs` cuts the file back. This project models the builder, the reader, the archive walker and the
kernel's directory scan in Dafny, and proves that they fit together.

## How it is modelled

- The file is a growing sequence of 512-byte blocks (`Meta.Block`): archive bytes, free blocks, dinodes, indirect
  extent blocks, directory blocks and the superblock. Directory blocks are kept as bytes; their records are read and
  edited at byte offsets, little-endian.
- `FsIO`, `SpaceManager`, `Inode`, `InodeFactory`, `FsMaker`, `FsReader`, `Parser` are classes with the fields of the
  C++ classes. Each carries ghost state: an owner for every block, the extent list, chain and records of every inode,
  the inode of every path, and the tree built so far. A directory is *intact* while it has been nothing else.
- `Volume` says what an allocator does to the image and which blocks a step may touch; `Nodes` says when the image and
  all inodes agree; `Tree` says what an archive means as a map from paths to entries and when directories agree with
  it. `FsMaker.Inv` puts the three together and is kept by every step of the builder. `Ustar` is a header block as an
  archiver writes it, field by field.
- `Dir` adds methods but no fields to `Inode`, so its methods take the directory as the argument `dir`.
- The clock and the uninitialised dirty flag are arbitrary values chosen at each use.

## Main results

- **Whole run** (`Mkfs.MkfsImage`, `RoundTrip.MkfsThenRead`): for every terminated archive with room behind it, the
  outcome is known from the archive alone (`Mkfs.Fate`). If no entry that is no directory has an entry below its path
  later, all go in and the image is made, whatever entries turn into what (`Meaning.AllGoInMeans`). Otherwise the first
  entry with such a one above it decides: the file is rolled back if the last entry for that path is no directory
  (`Meaning.BlockedMeans`); if a directory has come after it, the source would read archive bytes as directory records
  and the run is not followed (`Meaning.StraysMeans`). Reopening an image from its last block and walking a path finds
  an inode exactly when the path is a prefix of some entry's path and no entry for anything on the way is something
  else than a directory; it has the attributes of the last entry for that path, or those of a default directory; two
  links and one for every directory made in it; and block `off` of a regular file is block `off` of its archive data,
  up to the block that holds its last byte.
- **Header fields** (`RoundTrip.MkfsThenStat`, `Ustar.Written`): kind, mode, owner, group, size and times of the inode
  found are those the archiver wrote into the fields of the last header for the path, in octal digits.
- **Bytes** (`DirBlock.RecBytes`, `Dirs.AddedBytes`, `Maker.MagicBytes`): what directory records look like on disk byte
  by byte, and which eight bytes make a block a superblock.
- **Listing** (`RoundTrip.MkfsThenList`): the kernel's resumable scan of a directory of a built image yields ".", ".."
  and the components that entries of the archive have behind that path, each once, in any number of calls.
- **Superblock** (`RoundTrip.MkfsThenInspect`): inode count, data total and size are what the archive calls for, and
  the three free lists are disjoint runs of appended blocks, exactly those that nothing else uses.
- **Detach** (`RoundTrip.MkfsThenDetach`): after every run that makes an image, detaching gives back the archive, block
  for block.
- **Merging** (`Extents.MergeSoundExactly`): `insBlock` merges on physical adjacency and never looks at `de_off`.
  That is right if and only if no extent but the last ends where the new run starts. `Facts.DirMergeSound` and
  `Facts.TableMergeSound` prove that condition in every reachable state, from the increasing order in which each
  allocator issues blocks while the other two interleave.
- **Conservation** (`Facts.Conservation`): at every step no block has two uses, and a block has none exactly when it
  was lost by an entry that turned a directory into something else.
- **Free lists** (`Volume.FreeListWalk`, `Facts.FinalFreeLists`): from the head in the superblock, the links on disk
  visit exactly the unissued blocks, in order, and stop.
- **Directories** (`Records.AddedLookup`, `Records.AddedTiles`, `Dirs.AddDirEntry`): the in-place byte edits keep the
  records tiling whole blocks and behave as a map from names to inode numbers.
- **Tree shape** (`Facts.DotNames`, `Facts.OneName`, `Facts.Reachable`, `Facts.LinkCount`, `Tree.TreeAdd`): link
  counts, dot names, one name for every inode, and every inode reached by its own path only.
- **Archive walk and path split** (`Parser.WalkStep`, `Parser.StepExtent`, `Parser.LongRoundTrip`,
  `Parser.LongMeaning`, `PathSplit.ComponentsMeaning`, `PathSplit.SplitInvertsJoin`): each step consumes a header, the
  text of a long name and the data, in as many blocks as their sizes call for.
- **Kernel scan** (`Readdir.Session`): however often the consumer refuses an entry, it gets the directory's live
  records in order, each once, exactly as many as it had room for over all calls.
- **setFile** (`Facts.SetFileExactly`, `RoundTrip.ImageOrder`): replacing an inode's attributes leaves it in good order
  if and only if the entry is no directory or the inode is an intact one; all inodes of a built image are in good order
  if and only if no path ends as a directory after it was something else.

The invariants are not empty: `Maker.Create` establishes `FsMaker.Inv` for every file it accepts, and each later
predicate is established from it by a method of the builder.

## Where the code differs from what one may expect

- A file, then a directory at the same path: `setFile` makes the inode a directory and keeps the file's extents, so
  its records are the file's data in the archive (`Facts.PromotedIsArchive`). The image is made and can be detached
  (`Samples.FileThenDirectory`), and the file once more behind it mends the inode (`Samples.FileDirectoryFile`). An
  entry below that path makes `lookup`, `searchFreeSpace` and `addDirEntry` take the file's data for records. If they
  read as records and none has the name, the archive is overwritten if and only if one has room for it
  (`Maker.FsMaker.LastAstray`). `Samples.BelowDirectory` is an archive where that happens: in `Samples.ArchiveEdited` a
  block below `orgblks` has other bytes afterwards.
- A directory, then something else at the same path: nothing in the archive is touched and all results hold, but the
  blocks of the directory are lost (`Facts.DemotionLoses`), what lies below it is not reached any more, and its parent
  keeps the link for its ".." (`Samples.DirectoryThenFile`). A directory after that again is as above. Without a change
  of kind the link count is two and one for every subdirectory (`Meaning.LinksPlain`).
- The text of a GNU 'L' record is read into a buffer of 4096 bytes without a check and need not have a NUL. The record
  has a meaning if and only if the text fits and has one (`Parser.LongMeaning`); `Samples.LongNameOverruns` and
  `Samples.LongNameUnended` are records without.
- `DIRENT_SIZE` (record layout) and `DIRECT_SIZE` (free-space test) are different sizes of the same record; the test
  is never the smaller one (`Meta.SizeMacrosAgree`), so splitting is safe.
- An entry path with a "." component, as in "./dir", has no path for `parsePath`; `get` then returns NULL and the walk
  ends there without an error. The theorems about a run hold with the walk ending at such an entry (`Parser.Stops`).
- "a//b" has an empty middle component (`PathSplit.ComponentsMeaning`).
- `setFile` on an existing inode keeps the type byte in the directory record, so a regular file replaced by a symbolic
  link keeps its old type byte; nothing in the builder or reader depends on more than the directory type.
- `setFile` ors the mode field into the type: a mode field with format bits of its own can change the kind
  (`TarFile.OrFmt`). Fields without such bits, and those of old archives that repeat the entry's own type, do not.
- `parsePath` pushes pointers into the caller's buffer although it has just made a copy of the component; the model
  takes the copy.
- `ftype` in `Inode` duplicates the format bits of `di_mode` and is not updated by `setFile`; the model asks the
  format bits. Nothing asks an inode for its kind after `setFile` changed it.

## Model

| member | source | states |
|---|---|---|
| RoundTrip.MkfsThenRead | cmd_c++/mkfs_tarfs.cc:23-28 | whole run and reader against the archive's own meaning: a path is found exactly when it is a prefix of an entry's path and no entry for anything on the way is something else than a directory, with the attributes of the last entry for it (or a default directory), its link count, the kind of the last type flag ('0', '2' or '5'), and a regular file's blocks, one for every 512 bytes begun; `astray` marks exactly the walks into a directory that was something else |
| RoundTrip.MkfsThenStat | cmd_c++/file.cc:39-82 | the inode found has the mode, owner, group and size written in octal in the fields of the last header for its path, a symbolic link the length of its target, all three times the seconds written times 1000000, and it names that header's block |
| RoundTrip.MkfsThenDetach | cmd_c++/detachtarfs.cc:20-29 | after every run that makes an image, detaching gives back the archive, block for block |
| RoundTrip.MkfsThenList | knl/dir.c:90-139 | whole run and kernel scan: listing a directory gives ".", ".." and the components entries of the archive have behind its path, each once, and all of them if the consumer had room left; `astray` marks exactly the paths that are, or lead through, a directory that was something else |
| RoundTrip.MkfsThenInspect | cmd_c++/fsmaker.cc:141-152 | inodes is one more than the paths of the tree, dsize the data blocks of the regular files that were the first on or below their path, size a multiple of 256 plus 1; the three lists read from the image start where the superblock says and are disjoint runs of appended blocks, exactly those no inode, directory or indirect map uses; all inodes are in order exactly when no path ends as a directory after it was something else |
| RoundTrip.List | knl/dir.c:90-139 | listing a directory of an open image gives its children's names, each once |
| RoundTrip.LiveNames | cmd_c++/dir.cc:102-155 | a directory's live records are the dot names and one for every path one component longer |
| RoundTrip.FreeRuns | cmd_c++/fsmaker.cc:144-146 | the free lists of two allocators share no block |
| RoundTrip.FreeExactly | cmd_c++/fsmaker.cc:144-146 | a block is on a list exactly when it is an unissued block of that allocator |
| RoundTrip.ImageOrder | cmd_c++/inode.cc:54-71 | the inodes of a built image are all in order exactly when no path of the archive ends as a directory after it was something else |
| RoundTrip.MkfsTwice | cmd_c++/fsmaker.cc:40-44 | a built image is recognised and left alone by another run |
| RoundTrip.ReadPath | cmd_c++/fsreader.cc:46-63 | reading a path and a data block of an image gives what the archive says |
| RoundTrip.Locate | cmd_c++/inode.cc:163-206 | the inode at a path that is reached, its link count, and the block its extent list maps |
| Meaning.TreeSays | cmd_c++/fsmaker.cc:113-137 | the tree after all entries, in terms of the archive's items only |
| Meaning.TreeReaches | cmd_c++/fsmaker.cc:113-124 | a path is reached exactly when it exists and no entry for anything on the way is something else than a directory |
| Meaning.TreeStrays | cmd_c++/dir.cc:41-64 | the way to a path leads into a directory that was something else exactly when the items say so |
| Meaning.TreeEnds | cmd_c++/dir.cc:41-64 | a path is reached and is such a directory itself exactly when the items say so |
| Meaning.IntactMeans | cmd_c++/inode.cc:54-71 | a path is there as something else than an intact directory exactly when some entry for it is no directory, and is a directory all the same exactly when one came after the last of these |
| Meaning.PassesMeans | cmd_c++/fsmaker.cc:113-124 | an entry goes in exactly when no entry before it is no directory and has a path above its own |
| Meaning.AllGoInMeans | cmd_c++/mkfs_tarfs.cc:23-27 | all entries go in exactly when none that is no directory has one below it later |
| Meaning.BlockedMeans | cmd_c++/fsmaker.cc:121-123 | an entry makes the builder roll back exactly when the shortest path above its own that has an entry that is no directory has one as its last entry so far |
| Meaning.StraysMeans | cmd_c++/fsmaker.cc:119-120 | an entry leads through a directory that was something else exactly when a directory came last for that path |
| Meaning.OrderMeans | cmd_c++/inode.cc:54-71 | the tree has a directory that was something else exactly when the last entry for some path is a directory and an earlier one is not |
| Meaning.DataAt | cmd_c++/parser.cc:104-106 | the data of an archive item lies right behind its header |
| Meaning.MappedData | cmd_c++/inode.cc:65-68 | the extent map of a regular file leads to exactly the data blocks the archive holds for its path |
| Meaning.KindFrom | cmd_c++/util.cc:31-46 | the last item's type flag, '0', '2' or '5', makes a regular file, symbolic link or directory; a directory made on the way has mode 0755 and owner 0 |
| Meaning.SizeFrom | cmd_c++/file.cc:67-73 | the archive holds a data block for exactly the offsets below the size of the inode |
| Meaning.DinodeSays | cmd_c++/inode.cc:54-71 | a dinode that is what the archive says carries what the fields of the last header say |
| Meaning.BelowNext | cmd_c++/fsmaker.cc:116-123 | behind a '0' or '2' item the next entry is rolled back if its path is below; behind a '5' item it is only if something between the two is no directory |
| Meaning.DataTotal | cmd_c++/inode_factory.cc:68-78 | the data total of a run in terms of the items alone |
| Meaning.SubNamesAre | cmd_c++/dir.cc:108-111 | the names a directory has links for, in terms of the archive's items only |
| Meaning.LinksPlain | cmd_c++/dir.cc:108-111 | if no entry changes the kind of its path, the names counted are exactly the subdirectories |
| Mkfs.MkfsImage | cmd_c++/mkfs_tarfs.cc:18-31 | the run declines, rolls back to the archive, or makes an image of the tree of all entries, whichever the archive calls for; only where an entry leads through a directory that was something else is it not followed |
| Mkfs.AddAll | cmd_c++/mkfs_tarfs.cc:23-27 | the loop adds every entry; the first that is blocked rolls the file back, the first that leads through a directory that was something else ends what is followed |
| Mkfs.OneFate | cmd_c++/mkfs_tarfs.cc:23-27 | every list of entries goes in, gets stuck or leads through a directory that was something else, and only one of these |
| Tree.OneWay | cmd_c++/fsmaker.cc:113-124 | the way to a path is clear, ends at something that is no directory, or leads through a directory that was something else, and only one of these |
| Mkfs.AddNext | cmd_c++/mkfs_tarfs.cc:25-25 | one entry takes the tree and the data total from the first k entries to the first k + 1, and at most six bulks per component |
| Mkfs.GetNext | cmd_c++/mkfs_tarfs.cc:24-24 | although blocks are appended to the file it reads, the walker returns the next entry of the original archive |
| Mkfs.GetStep | cmd_c++/parser.cc:30-114 | on any extension of the archive, call k of get gives entry k with its data inside the archive, and nothing after the last |
| Extents.TiledMaps | cmd_c++/inode.cc:163-206 | getBlock(off) on a tiled extent list is element off of its block sequence, and nothing past the end |
| Extents.InsExtAppends | cmd_c++/inode.cc:87-152 | inserting a run at the logical end appends exactly its blocks to the sequence |
| Extents.MergeSoundExactly | cmd_c++/inode.cc:93-117 | the merge test, which ignores de_off, is right if and only if only the last extent can be adjacent |
| Extents.WrongMerge | cmd_c++/inode.cc:146-152 | merging into an earlier extent leaves the appended run out of reach |
| ExtMap.DirectRead | cmd_c++/inode.cc:170-185 | the used direct slots are the first extents of the list |
| ExtMap.ChainRead | cmd_c++/inode.cc:187-201 | an indirect block holds its share of the list and leads to the next, or is the last |
| ExtMap.RepMergeDirect | cmd_c++/inode.cc:93-98 | growing a direct extent in the dinode is growing it in the extent list |
| ExtMap.RepPushDirect | cmd_c++/inode.cc:102-107 | filling the next direct slot appends to the extent list |
| ExtMap.RepMergeChain | cmd_c++/inode.cc:108-122 | growing an extent of one indirect block changes just that element of the list |
| ExtMap.RepPushChain | cmd_c++/inode.cc:123-129 | the last indirect block has a free slot, and filling it appends to the list |
| ExtMap.RepFirstChain | cmd_c++/inode.cc:130-138 | the eighteenth extent starts the chain of indirect blocks |
| ExtMap.RepGrowChain | cmd_c++/inode.cc:130-145 | a new indirect block behind a full last one continues the list |
| ExtMap.RepFrame | cmd_c++/inode.cc:163-206 | an extent map is untouched by steps that leave the inode's indirect blocks alone |
| Inodes.Inode.constructor | cmd_c++/inode.cc:5-31 | a new inode has the given kind and mode, one link, no extents |
| Inodes.Inode.Load | cmd_c++/inode.cc:32-43 | an inode in memory is the dinode in its block |
| Inodes.Inode.SetFile | cmd_c++/inode.cc:54-71 | all attributes come from the archive header, the mode field or-ed into the type; only a directory keeps its blocks |
| Inodes.Inode.InsBlock | cmd_c++/inode.cc:76-153 | on dinode and disk together, the extent list becomes the list with the run merged or appended; only this inode's indirect blocks are touched; the chain loop ends |
| Inodes.Inode.ScanDirect | cmd_c++/inode.cc:87-98 | finds the first direct extent that ends where the run starts, or that there is none |
| Inodes.Inode.ScanChain | cmd_c++/inode.cc:108-122 | finds the first adjacent extent in the chain, or arrives at the last indirect block |
| Inodes.Inode.InsIndirect | cmd_c++/inode.cc:108-144 | the indirect half of insBlock |
| Inodes.Inode.MergeDirect | cmd_c++/inode.cc:146-152 | merging into a direct extent changes no block on disk |
| Inodes.Inode.PushDirect | cmd_c++/inode.cc:102-107 | a direct slot is filled; nothing on disk changes |
| Inodes.Inode.MergeInChain | cmd_c++/inode.cc:146-152 | merging rewrites the one indirect block that holds the extent |
| Inodes.Inode.PushInChain | cmd_c++/inode.cc:123-129 | the run takes the next slot of the last indirect block |
| Inodes.Inode.GrowChain | cmd_c++/inode.cc:130-145 | a block is issued to the inode and linked in as first or last of its chain |
| Inodes.Inode.LinkIndExt | cmd_c++/inode.cc:132-144 | the new block holds the run and is first or last of the chain |
| Inodes.Inode.AllocIndExt | cmd_c++/inode.cc:131-131 | the issued block is new to the chain and nothing in use changed |
| Inodes.Inode.GetBlock | cmd_c++/inode.cc:163-206 | the block of the first extent, direct or chained, that holds the offset; none if no extent does |
| Inodes.Inode.Sync | cmd_c++/inode.cc:154-162 | a modified inode's dinode, and nothing else, is written to its block |
| Volume.AllocatedOk | cmd_c++/space.cc:10-26 | issuing a block keeps all three free lists intact and touches no block in use |
| Volume.AllocatedOwnPool | cmd_c++/space.cc:10-26 | after an issue, the allocator's list is again exactly its unissued blocks, linked in order |
| Volume.IssuedBelow | cmd_c++/space.cc:10-26 | whatever the other allocators do, an allocator's next block lies above all it ever issued |
| Volume.HeadIsNext | cmd_c++/space.cc:22-25 | the head names the block issued next, and the link stored there is the head after that |
| Volume.WriteOk | cmd_c++/fsmaker.cc:172-182 | rewriting a block in use disturbs no free list |
| Volume.FreeListWalk | cmd_c++/space.cc:13-21 | following f_nextblkno on disk from the head visits exactly the unissued blocks, in order, and ends |
| Space.FsIO.constructor | cmd_c++/fsmaker.cc:29-56 | a file without metadata: every block belongs to the archive, all free lists are empty |
| Space.FsIO.ReadBlock | cmd_c++/fsmaker.cc:159-171 | a block is read as it is on disk |
| Space.FsIO.WriteBlock | cmd_c++/fsmaker.cc:172-188 | blocks are overwritten or appended, and the tracked size follows the end of the file, in the superblock too |
| Space.WrittenAt | cmd_c++/fsmaker.cc:172-188 | every block after a write: the one written, the one before, or zeros in a gap |
| Space.FsIO.Update | cmd_c++/fsmaker.cc:172-188 | rewriting a block in use keeps the archive, the sizes and the free lists |
| Space.FsIO.WriteSuper | cmd_c++/fsmaker.cc:151-182 | the superblock written last counts its own block |
| Space.FsIO.Rollback | cmd_c++/fsmaker.cc:153-158 | the file is cut back to its original length |
| Space.SpaceManager.constructor | cmd_c++/tarfs.h:195-198 | an allocator starts with an empty list |
| Space.SpaceManager.LinkBulk | cmd_c++/space.cc:13-19 | the bulk's blocks name each other in order, the last names none |
| Space.SpaceManager.TakeBulk | cmd_c++/space.cc:10-21 | a bulk is appended; its first block is issued, the second is the new head |
| Space.SpaceManager.NextBlock | cmd_c++/space.cc:10-26 | head or new bulk: the file and the head afterwards |
| Space.SpaceManager.AllocBlock | cmd_c++/space.cc:4-29 | issues a block nobody owns, above all this allocator issued before; other allocators and blocks in use are as before |
| Meta.SizeMacrosAgree | include/tarfs_meta.h:141-146 | DIRECT_SIZE exceeds DIRENT_SIZE by 0 or 4 bytes, equal exactly for lengths 3 mod 4; both leave room for the name and its NUL |
| Records.AddedTiles | cmd_c++/dir.cc:102-155 | whichever way an entry is added, the records tile whole blocks, none straddles a block, each has room for its name |
| Records.SplitTiles | cmd_c++/dir.cc:121-131 | cutting a live record keeps the tiling |
| Records.AddedInserts | cmd_c++/dir.cc:102-155 | adding inserts one entry; the other entries and their order stay |
| Records.AddedLookup | cmd_c++/dir.cc:41-155 | after adding an absent name, lookup of it gives the new inode and of every other name what it gave before |
| Records.LookupIsAssoc | cmd_c++/dir.cc:50-63 | lookup depends on the live entries only, not on lengths or dead records |
| Records.EncodesUnique | cmd_c++/dir.cc:50-63 | the bytes of a directory determine its records |
| Records.AddedChanges | cmd_c++/dir.cc:113-131 | adding an entry changes some byte |
| Records.RecordInBlock | cmd_c++/dir.cc:50-63 | a scan step stays inside the block or ends at its boundary |
| DirBlock.ReuseInPlace | cmd_c++/dir.cc:116-120 | a dead record is taken over with its length; no other byte of the block changes |
| DirBlock.CutInPlace | cmd_c++/dir.cc:122-124 | a live record keeps its fields and shrinks to its own size |
| DirBlock.SplitInPlace | cmd_c++/dir.cc:121-131 | the old record, cut, and the new one in the rest; no byte outside the old record changes |
| DirBlock.FillBlock | cmd_c++/dir.cc:144-149 | one record over the whole block |
| DirBlock.DotBlock | cmd_c++/dir.cc:20-33 | "." and ".." fill the first block of a new directory |
| DirBlock.SetEntry | cmd_c++/dir.cc:126-130 | writes inode number, type, length and name, least significant byte first, and leaves the record length |
| DirBlock.SetReclen | cmd_c++/dir.cc:122-129 | writes the record length, least significant byte first, and nothing else |
| DirBlock.RecBytes | include/tarfs_meta.h:133-140 | a stored record byte by byte: inode number at 0, record length at 8, name length at 10, type at 12, name at 13, numbers least significant byte first |
| DirBlock.DeadBytes | cmd_c++/dir.cc:57-57 | a record is dead exactly if its first eight bytes are all 255 |
| DirBlock.DotBytes | cmd_c++/dir.cc:20-33 | the bytes of a new directory's first block |
| Bytes.LittleEndian | include/tarfs_meta.h:133-140 | what is decoded is the number the bytes are, least significant first |
| Dirs.AddedBytes | cmd_c++/dir.cc:113-153 | the bytes of an added entry on disk: inode number, name length, type 1, 2 or 3 for a regular file, directory or symbolic link, and the name |
| DirBlock.ReuseEncodes | cmd_c++/dir.cc:116-120 | the edited block holds the reused record and all its neighbours |
| DirBlock.SplitEncodes | cmd_c++/dir.cc:121-131 | the edited block holds both halves and all their neighbours |
| DirBlock.AppendEncodes | cmd_c++/dir.cc:136-153 | a block with one record continues the directory |
| Dirs.ReadDirBlock | cmd_c++/dir.cc:51-55 | block off/512 of the directory file is read |
| Dirs.ScanStep | cmd_c++/dir.cc:50-63 | one round of the scan loop sees record g and moves to record g + 1 |
| Dirs.FindEntry | cmd_c++/dir.cc:41-64 | the inode number of the first live record with the name; none exactly if the directory has none |
| Dirs.SearchFreeSpace | cmd_c++/dir.cc:69-101 | offset, block and image of the first record with room; TARBLK_NONE exactly if there is none |
| Dirs.ScanFreeSpace | cmd_c++/dir.cc:80-100 | the scan behind searchFreeSpace |
| Dirs.EditInPlace | cmd_c++/dir.cc:113-131 | the edited copy of the block encodes the directory with the entry added |
| Dirs.AddToBlock | cmd_c++/dir.cc:112-134 | the entry goes into an existing block; the file does not grow |
| Dirs.RewriteDirBlock | cmd_c++/dir.cc:132-132 | writing the copy back changes this directory only |
| Dirs.AppendDirBlock | cmd_c++/dir.cc:135-143 | a new block is issued and mapped behind the last; the directory's blocks stay increasing |
| Dirs.FillNewBlock | cmd_c++/dir.cc:144-153 | the new block holds its record, and size and block count follow |
| Dirs.AddInNewBlock | cmd_c++/dir.cc:135-154 | the entry goes into a new block of the directory |
| Dirs.AddDirEntry | cmd_c++/dir.cc:102-155 | the directory becomes the directory with the entry added; the link count grows exactly for a subdirectory; no other inode's blocks are touched |
| Dirs.InitBlock | cmd_c++/dir.cc:20-38 | the one block holds the two dot records; size, block count and link count follow |
| Dirs.DirInit | cmd_c++/dir.cc:5-40 | a new directory has one block with "." and "..", and two links |
| Dirs.AddAstray | cmd_c++/dir.cc:69-155 | in a directory that maps archive blocks which read as records, adding a name overwrites the archive exactly when one of these has room for it |
| Dirs.AddToArchive | cmd_c++/dir.cc:112-134 | the edited copy of an archive block is written back and its bytes differ |
| Dirs.AddBehind | cmd_c++/dir.cc:135-154 | without room, a block behind the archive is taken and the archive keeps its bytes |
| Dirs.DirEdited | cmd_c++/fsmaker.cc:172-182 | rewriting block k changes image k of this directory and no other |
| Dirs.DirIssued | cmd_c++/space.cc:10-26 | an issued directory block is above all the directory has |
| Nodes.TableIssues | cmd_c++/inode_factory.cc:44-52 | the k-th issued dinode block is entry k of the inode table, also across bulks |
| Nodes.BulkBoundary | cmd_c++/inode_factory.cc:44-52 | the dinode list is empty exactly when all mapped inodes are in use, and their number is then a multiple of 256; entries 0 and 1 are the first two appended blocks |
| Nodes.VolIssued | cmd_c++/inode_factory.cc:36-52 | issuing a dinode keeps every other inode and grows the table at its end only |
| Nodes.VolNew | cmd_c++/inode_factory.cc:53-66 | a new inode with blocks of its own leaves the image in order |
| Nodes.VolUpdate | cmd_c++/dir.cc:102-155 | changing one directory leaves every other inode and the table in order |
| Nodes.VolFirst | cmd_c++/inode_factory.cc:90-109 | after init, inode 0 lives in the first block of the bulk it maps |
| Nodes.NodeFrame | cmd_c++/fsmaker.cc:172-188 | an inode is untouched by steps on other inodes' blocks |
| Nodes.SyncedFrame | cmd_c++/fsmaker.cc:124-134 | dinodes on disk stay what they are while other blocks change |
| Nodes.SyncedWrite | cmd_c++/inode.cc:154-162 | writing one dinode closes that inode and disturbs none |
| Nodes.AboveOnlyLast | cmd_c++/inode.cc:93-117 | a block above all mapped ones is adjacent to the last extent at most |
| Nodes.AppendedRun | cmd_c++/inode.cc:76-153 | a run above all mapped blocks is appended exactly |
| TarFile.StrToInt | cmd_c++/util.cc:11-24 | the value strtoull reads from the field, octal, saturating |
| TarFile.FieldRoundTrip | cmd_c++/util.cc:11-24 | a number written in octal is read back, whatever its blank padding and terminator |
| TarFile.OctalDigit | cmd_c++/util.cc:11-24 | the octal digits are the characters '0' to '7', most significant first |
| TarFile.SignedField | cmd_c++/util.cc:11-24 | a plus is ignored, a minus negates in 64 bits |
| TarFile.SaturatedField | cmd_c++/util.cc:11-24 | a number beyond 64 bits reads as the largest |
| TarFile.ModeMeaning | cmd_c++/inode.cc:58-58 | which format bits a mode field may have without changing the kind of its entry |
| Meta.BlocksLeast | include/tarfs_meta.h:180-180 | the block count is the least that holds the size, unless rounding up wraps around |
| Ustar.Sections | include/tarfs_meta.h:14-34 | where each field of the header lies in its block |
| Ustar.HeaderSays | cmd_c++/file.cc:39-82 | an entry with a header carries the numbers written in its fields |
| Ustar.Written | cmd_c++/parser.cc:38-114 | a header an archiver may write, with as many data blocks as its size calls for, is an entry of an archive with the name in its name field |
| Tree.BuildMeaning | cmd_c++/fsmaker.cc:113-137 | what a list of entries means without replaying it: prefixes exist, the last entry for a path wins, the rest are directories made on the way |
| Tree.TreeAdd | cmd_c++/dir.cc:157-176 | entering a new inode keeps names distinct, dot names, parents and link counts of all directories |
| Tree.TreeSame | cmd_c++/fsmaker.cc:129-129 | new attributes, also of another kind, change no name, path or link count |
| Tree.NameAdded | cmd_c++/dir.cc:102-155 | names stay distinct and only the new name changes its meaning |
| Tree.NameTarget | cmd_c++/dir.cc:41-68 | in any directory a name leads exactly to the inode of the path it extends to |
| Tree.PrefixClosed | cmd_c++/fsmaker.cc:113-124 | every proper prefix of a path in the tree is in the tree and was made as a directory |
| Tree.RepresentsAdd | cmd_c++/fsmaker.cc:116-131 | a new inode with an entry's attributes extends the tree by that entry |
| Factory.FileNodeOk | cmd_c++/inode.cc:54-71 | setFile leaves any inode, whatever it becomes, with a map that can be followed and blocks nobody else has |
| Factory.FileEntry | cmd_c++/inode.cc:54-71 | the attributes are the entry's; size, block count and extent are those of the last entry that was no directory |
| Factory.OrderIsIntact | cmd_c++/inode.cc:64-69 | an inode in a built volume has its records in blocks of its own exactly when it is no directory or an intact one |
| Factory.ArchiveNoDir | cmd_c++/inode.cc:64-69 | a directory that maps archive blocks is not in order |
| Factory.IntactOwns | cmd_c++/inode.cc:64-69 | the first mapped block tells an intact directory from one that maps archive blocks |
| Factory.InodeFactory.constructor | cmd_c++/inode_factory.cc:90-109 | inode 0 is made, maps the first bulk, and is counted |
| Factory.InodeFactory.Load | cmd_c++/inode_factory.cc:80-88 | inode 0 is read from the block the superblock names |
| Factory.InodeFactory.GetInode | cmd_c++/inode_factory.cc:21-35 | through inode 0, the inode with that number as it was last synced |
| Factory.InodeFactory.IssueDinode | cmd_c++/inode_factory.cc:44-52 | a dinode block is issued and a new bulk is mapped from the next inode number on |
| Factory.InodeFactory.MapBulk | cmd_c++/inode_factory.cc:46-52 | the bulk is mapped exactly when the list was empty |
| Factory.InodeFactory.AllocDinode | cmd_c++/inode_factory.cc:44-52 | the new dinode block is the table entry of the next inode number |
| Factory.InodeFactory.BuildInode | cmd_c++/inode_factory.cc:53-59 | a directory starts with its dot block, anything else empty |
| Factory.InodeFactory.NumberInode | cmd_c++/inode_factory.cc:53-66 | the inode gets the next number and joins the image |
| Factory.InodeFactory.AllocInode | cmd_c++/inode_factory.cc:36-67 | a new inode with default attributes; all other inodes are as before |
| Factory.InodeFactory.AllocFileInode | cmd_c++/inode_factory.cc:68-78 | a new inode with the entry's attributes; the data total grows for regular files only |
| Factory.InodeFactory.SetFile | cmd_c++/fsmaker.cc:129-129 | an existing inode takes the attributes of any entry and keeps its names and links; every other inode and the table are as before |
| Factory.InodeFactory.Lookup | cmd_c++/dir.cc:41-68 | null exactly for an absent name, else the inode on disk with its parent |
| Factory.InodeFactory.AddName | cmd_c++/dir.cc:161-164 | search and add in a row |
| Factory.InodeFactory.LinkName | cmd_c++/dir.cc:161-164 | one directory gets the name; the rest of the image is as before |
| Factory.InodeFactory.SyncInode | cmd_c++/fsmaker.cc:131-134 | the inode is on disk afterwards, also when it was clean |
| Factory.InodeFactory.Fin | cmd_c++/inode_factory.cc:110-117 | inode 0 is on disk afterwards |
| Factory.MapFirst | cmd_c++/inode_factory.cc:97-104 | inode 0 maps the bulk it lives in |
| Factory.FirstInode | cmd_c++/inode_factory.cc:95-105 | the first dinode block is the first block behind the archive |
| Maker.Create | cmd_c++/fsmaker.cc:4-84 | declines exactly an empty file and one that ends in a superblock, which for archive bytes is a block that starts with fe ca af be 00 00 00 00; else inode 0 and the root are in place |
| Maker.MagicBytes | cmd_c++/fsmaker.cc:40-44 | these eight bytes and no others make a block of archive bytes a superblock |
| Maker.MakeRoot | cmd_c++/fsmaker.cc:67-82 | the root directory is inode 1 and its own parent |
| Maker.RootTree | cmd_c++/fsmaker.cc:75-82 | the tree with the root only |
| Maker.FsMaker.Mkdir | cmd_c++/dir.cc:157-166 | the tree gains one default directory |
| Maker.FsMaker.Create | cmd_c++/dir.cc:167-176 | the tree gains the entry |
| Maker.FsMaker.EnterFile | cmd_c++/dir.cc:170-174 | the new inode is numbered, named and in the tree |
| Maker.FsMaker.LinkNew | cmd_c++/dir.cc:171-174 | the inode just issued is entered in its directory; all other inodes are as before |
| Maker.FsMaker.NameMeans | cmd_c++/fsmaker.cc:115-115 | a lookup finds a path's inode exactly when the tree has the path, although root and inode 0 are not on disk |
| Maker.FsMaker.FindOrMake | cmd_c++/fsmaker.cc:115-123 | the next directory is found, made if absent, or reported as no directory or as one that was something else |
| Maker.FsMaker.SyncPair | cmd_c++/fsmaker.cc:124-136 | afterwards only root and inode 0 are ahead of their images |
| Maker.FsMaker.NextDir | cmd_c++/fsmaker.cc:113-136 | one directory component, with both inodes written back |
| Maker.FsMaker.LookupLast | cmd_c++/fsmaker.cc:115-115 | the inode of the entry's path, null exactly if the tree does not have it |
| Maker.FsMaker.PutEntry | cmd_c++/fsmaker.cc:125-130 | the entry is created or replaces the attributes of the inode at its path, whatever both are |
| Maker.FsMaker.ReplaceFile | cmd_c++/fsmaker.cc:129-129 | replacing keeps all names and links and the invariant, whatever the inode was and becomes |
| Maker.FsMaker.WalkDirs | cmd_c++/fsmaker.cc:113-124 | the missing ancestors are made; stuck exactly if one is no directory, astray exactly if one is a directory that was something else, whichever comes first |
| Maker.FsMaker.LastComponent | cmd_c++/fsmaker.cc:125-136 | the last round: the entry is put and the inodes written back |
| Maker.FsMaker.Add | cmd_c++/fsmaker.cc:106-140 | the tree becomes the tree with the entry, or the file is rolled back exactly if its way is blocked; only an entry that leads through a directory that was something else is not followed |
| Maker.FsMaker.LastAstray | cmd_c++/fsmaker.cc:115-127 | lookup and create in a directory that was something else, its data reading as records without the name: the archive is overwritten exactly when one has room for it |
| Maker.FsMaker.CreateAstray | cmd_c++/dir.cc:167-176 | create in such a directory |
| Maker.FsMaker.FillSuper | cmd_c++/fsmaker.cc:143-148 | the summary fields and the three free-list heads |
| Maker.FsMaker.Flush | cmd_c++/fsmaker.cc:149-150 | after root and inode 0 are written every dinode is on disk |
| Maker.FsMaker.Complete | cmd_c++/fsmaker.cc:141-152 | the file is a finished image of the tree: archive first, superblock last, every inode on disk |
| Reader.NodeReadable | cmd_c++/inode_factory.cc:21-35 | every inode of a finished image can be read, the superblock behind it notwithstanding |
| Reader.Open | cmd_c++/fsreader.cc:16-64 | null exactly when the last block does not read as a superblock; else a reader whose inode 0 and root are those of the image |
| Reader.FsReader.Child | cmd_c++/dir.cc:41-68 | one name of a walk, not null exactly if the path it leads to is reached; a directory that was something else is not read |
| Reader.FsReader.Walk | cmd_c++/dir.cc:41-68 | the inode of a path, not null exactly if the path is in the tree and everything on the way is an intact directory; astray exactly if the way leads into one that was something else |
| Reader.Detach | cmd_c++/detachtarfs.cc:24-29 | file size minus recorded size is the archive's length |
| PathSplit.ParsePath | cmd_c++/parser.cc:115-152 | in-place splitting computes the path's components, and ends on every input |
| PathSplit.PushComponents | cmd_c++/parser.cc:126-146 | the nested loops, with p set back to s, push the components one by one |
| PathSplit.ComponentsMeaning | cmd_c++/parser.cc:127-146 | on every input: trailing slashes go, every other slash separates, a dot component makes the path invalid |
| PathSplit.SplitInvertsJoin | cmd_c++/parser.cc:115-152 | joining components with slashes, with a leading and any trailing slashes, is undone by splitting |
| Parser.Parser.Get | cmd_c++/parser.cc:30-114 | what one call returns and where the next starts, for every block it may stand on that holds archive bytes |
| Parser.Parser.TakeEntry | cmd_c++/parser.cc:93-113 | the entry of a header with its data extent, and the step behind the data |
| Parser.StepExtent | cmd_c++/parser.cc:62-113 | a call consumes the text blocks of an 'L' record, the header and the data blocks, text and data in the least number of blocks that holds their size; the next header is right behind |
| Parser.FlagMeaning | cmd_c++/parser.cc:45-91 | which first byte and type flag end the walk, and which leave the path in the header |
| Parser.ConcatAt | cmd_c++/parser.cc:71-72 | text block k fills the bytes of the path buffer from 512 * k on |
| Parser.LongRoundTrip | cmd_c++/parser.cc:62-93 | a name with its NUL, padded and cut into blocks behind an 'L' header, gives the entry behind it exactly that name |
| Parser.LongText | cmd_c++/parser.cc:62-85 | so it does for an item of an archive |
| Parser.ShortRoundTrip | cmd_c++/parser.cc:58-61 | a name ended in the header is the entry's name |
| Parser.LongMeaning | cmd_c++/parser.cc:62-85 | a long-name record has a meaning if and only if its text fits the 4096 bytes of the path buffer and has a NUL |
| Parser.NextItem | cmd_c++/parser.cc:38-114 | at an item, also with a GNU long name that fits the path buffer and ends, the call returns its entry and moves behind its data, or ends the walk exactly if its path does not split |
| Samples.LongNameOverruns | cmd_c++/parser.cc:68-72 | nine blocks of text overrun the path buffer |
| Samples.LongNameUnended | cmd_c++/parser.cc:71-93 | a text without a NUL has no end |
| Parser.StopsThere | cmd_c++/parser.cc:45-96 | a zero block, an unknown record type or a path that does not split ends the walk |
| Parser.WalkStep | cmd_c++/parser.cc:30-114 | the regions consumed by repeated calls tile the archive without gap or overlap, whatever was appended behind it |
| Readdir.Iterate | knl/dir.c:90-139 | one call hands over the live records from the position on, up to the first refused |
| Readdir.Offer | knl/dir.c:122-130 | a record before the position is skipped, one behind it handed over unless dead |
| Readdir.Session | knl/dir.c:90-139 | over any number of calls, the consumer gets the directory's live entries in order, each once, exactly as many as it had room for in all |
| Facts.ServesIsOwner | cmd_c++/space.cc:4-29 | the owner kept for a block is the use the inodes and free lists make of it, unless the block is lost |
| Facts.Conservation | cmd_c++/space.cc:4-29 | no block has two uses, every block has one exactly unless a directory that was turned into something else lost it, and only archive blocks lie below the original length |
| Facts.DirMergeSound | cmd_c++/inode.cc:93-117 | in every state, the next directory block merges only into an intact directory's last extent, and the map stays right |
| Facts.TableMergeSound | cmd_c++/inode_factory.cc:46-52 | so does the next bulk of dinodes in inode 0 |
| Facts.InodeNumbering | cmd_c++/inode_factory.cc:9-35 | getBlock(k) on inode 0 is the block of inode k and holds its dinode unless it is still in memory |
| Facts.ChainShape | cmd_c++/inode.cc:108-145 | chains do not repeat blocks, all but the last block are full and linked, and di_nExtents counts them |
| Facts.Accounting | cmd_c++/fsmaker.cc:141-182 | inode count, data total and size in the superblock; size is a multiple of 256 plus 1; free and root are where inode 0 says |
| Facts.FinalFreeLists | cmd_c++/fsmaker.cc:144-146 | the three heads in the superblock lead through exactly the unissued blocks of the finished image |
| Facts.DotNames | cmd_c++/dir.cc:20-33 | "." is the directory, ".." its parent, the root its own |
| Facts.OneName | cmd_c++/dir.cc:102-155 | every inode but the root is named by exactly one entry of one directory, its parent, and by none exactly if its parent is no intact directory any more |
| Facts.Reachable | cmd_c++/fsmaker.cc:113-137 | every inode is reached from the root by its own path and by no other, exactly if everything on the way is an intact directory |
| Facts.LinkCount | cmd_c++/dir.cc:108-111 | an inode made as a directory has two links and one for every directory made in it, anything else one |
| Facts.SubdirsNamed | cmd_c++/dir.cc:108-111 | the inodes made as directories in a directory are as many as their names |
| Facts.DataMapping | cmd_c++/file.cc:67-86 | block off of a regular file is block off behind its header as long as 512 * off is below its size, and unmapped from there on |
| Facts.SetFileExactly | cmd_c++/inode.cc:54-71 | an existing inode is in good order after setFile if and only if the entry is no directory or the inode is an intact one |
| Facts.PromotedIsArchive | cmd_c++/inode.cc:64-69 | what a directory that was a file maps is the data of that file, below the original length |
| Facts.ImageInOrder | cmd_c++/inode.cc:54-71 | all inodes of a finished image are in order exactly when every directory of its tree is intact |
| Facts.DemotionLoses | cmd_c++/inode.cc:64-69 | a directory turned into something else loses its data blocks |
| Samples.FileThenDirectory | cmd_c++/fsmaker.cc:125-130 | an archive with a regular file and then a directory at one path is made into an image with an inode that is not in order |
| Samples.FileDirectoryFile | cmd_c++/fsmaker.cc:125-130 | with the file a second time, all inodes are in order |
| Samples.DirectoryThenFile | cmd_c++/fsmaker.cc:125-130 | an archive with a directory and then a regular file at one path is made into an image; the root keeps three links |
| Samples.BelowDirectory | cmd_c++/fsmaker.cc:113-124 | a file, a directory at its path, an entry below: the run is not followed |
| Samples.ArchiveEdited | cmd_c++/dir.cc:112-134 | run up to that entry, the builder has written into a block of the archive |

## Left out

- Mkfs.MkfsImage: the run is followed up to the first entry that leads through a directory that was something else (`NotFollowed`). What the source does from there on depends on archive data read as directory records: it may make an image, change the archive, or not end. `Maker.FsMaker.LastAstray` follows one such step.
- Reader.FsReader.Walk: a walk or listing is not followed into such a directory either (`astray`); the test for it, `Nodes.OwnRecords`, is the model's, not the source's.
- Mkfs.AddAll: needs room for six bulks per path component below 2^64 bytes, because the code does not check for wrap-around of block numbers and byte offsets; the 32-bit link count is not bounded either.
- Maker.FsMaker.Add: entries whose mode field has format bits that change their kind (`TarFile.ModeMeaning`) or whose path has a component of more than 255 bytes are excluded; for `Inode.SetFile` alone they are not.
- Inodes.Inode.InsBlock: unused slots of a new indirect block are arbitrary; the source leaves the old free block's bytes there.
- Inodes.Inode.GetBlock: returns None where the source leaves its out-argument unset.
- Dirs.AddDirEntry: the type byte of a record is written as the source does, but no invariant relates it to the inode afterwards, because `setFile` does not update it.
- Dirs.FindEntry: the kernel's lookup in knl/namei.c is the same loop with `memcmp`; it is not modelled a second time.
- Readdir.Iterate: the d_type handed to the consumer is left out; `getDtype` compares record type codes with mode bits. Positions are those a scan left behind, not arbitrary seeks. The older `tarfs_readdir` is the same loop.
- Parser.Parser.Get: a call that would read blocks appended by the builder (no terminator in the archive), more long-name text than the path buffer holds, or a string without an end has no result in the model; names that fill all 100 header bytes, the ustar prefix field and hard links, devices and fifos are not given a meaning.
- Reader.Open: is stated for images the builder made, and for files whose last block does not read as a superblock.
- Reader.Detach: is stated for the same files.
- Space.FsIO.WriteBlock: short reads and writes, `malloc` failure and other system errors do not occur; a rollback ends the run.
- Blocks have a type. The source reads a block as another type than it was written with where a new indirect block or directory block starts from the free block it was (cmd_c++/inode.cc:132, cmd_c++/dir.cc:138); the model takes arbitrary contents there instead. Bytes of a structure that no field covers (magic numbers, padding, `tarfs_fsize`, `tarfs_flist_regdata`, `tarfs_flags`) are left out.
- A tar file whose length is not a multiple of 512 bytes.
- Closing a reader: the source syncs inode 0 through a writeBlock that does nothing.
- Kernel plumbing: mounting, the buffer cache, dentries, knl/super.c and knl/inode.c; the body of `tarfs_getDataBlock` is not part of this model and is given the contract of `getBlock`.
- The Android tree, a copy of the same logic over other I/O calls.
- tarfsmount, tarfscheck, printing, shell scripts and build files.
