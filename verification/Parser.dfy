/** Walking a tar archive entry by entry (Parser::get, cmd_c++/parser.cc). */
module Parser {
  import opened Meta
  import opened TarFile
  import opened PathSplit
  import opened Space

  const LONGNAME: byte := 76  // 'L'

  /** Flags whose path is in the header itself: '\0', '0' .. '7'. */
  predicate IsPosixFlag(flag: byte) {
    flag == 0 || ZERO <= flag <= ZERO + 7
  }

  /** A block of archive bytes, as opposed to metadata appended behind the archive. */
  predicate IsTar(b: Block) {
    b.Raw? && |b.bytes| == TAR_BLOCKSIZE
  }

  /**
    * Outcome of one get: no more entries, an entry and where the next header is, or no meaning: the call reads
    * blocks that are not the archive's, more text than its buffer holds, or a string without an end.
    */
  datatype Got = End | Entry(f: File, next: nat) | Foreign

  /** The archive bytes of consecutive blocks. */
  function Concat(blocks: seq<Block>): seq<byte> {
    if blocks == [] then [] else (if IsTar(blocks[0]) then blocks[0].bytes else []) + Concat(blocks[1..])
  }

  /** The entry whose real header is block `hdr` and whose path text is `text`. */
  function EntryAt(blocks: seq<Block>, hdr: nat, text: seq<byte>): Got {
    if hdr >= |blocks| || !IsTar(blocks[hdr]) then Foreign else
    var h := blocks[hdr].bytes;
    var path := SplitPath(text);
    if path.None? then End
    else
      var n := if h[156] == REGTYPE then TarfsBlocks(Strtoull8(h[124..136])) else 0;
      Entry(File(path.value, Ext(0, hdr + 1, n), hdr, h), hdr + 1 + n)
  }

  /** What get finds when it starts at block `off`. */
  function Next(blocks: seq<Block>, off: nat): Got {
    if off >= |blocks| then End
    else if !IsTar(blocks[off]) then Foreign
    else
      var h := blocks[off].bytes;
      if h[0] == 0 then End
      else if IsPosixFlag(h[156]) then if 0 in h then EntryAt(blocks, off, CString(h)) else Foreign
      else if h[156] != LONGNAME then End
      else
        var k := TarfsBlocks(Strtoull8(h[124..136]));
        var hdr := off + 1 + k;
        if TAR_BLOCKSIZE * k > MAXPATHLEN then Foreign
        else if hdr >= |blocks| then End
        else if exists i :: off < i <= hdr && !IsTar(blocks[i]) then Foreign
        else if 0 !in Concat(blocks[off + 1..hdr]) then Foreign
        else EntryAt(blocks, hdr, CString(Concat(blocks[off + 1..hdr])))
  }

  class Parser {
    var curoff: nat

    constructor ()
      ensures curoff == 0
    {
      curoff := 0;
    }

    /** Parser::get. A GNU 'L' record gives the path of the header that follows its name blocks. */
    method Get(io: FsIO) returns (file: Option<File>)
      requires !Next(io.blocks, curoff).Foreign?
      modifies this
      ensures match Next(io.blocks, old(curoff))
              case Entry(f, next) => file == Some(f) && curoff == next
              case _ => file == None
    {
      hide EntryAt, CString, Concat, Strtoull8;
      if curoff >= |io.blocks| {
        return None;
      }
      ghost var off := curoff;
      var x := io.ReadBlock(curoff);
      var header := x.bytes;
      if header[0] == 0 {
        return None;
      }
      var text;
      if IsPosixFlag(header[156]) {
        text := CString(header);
      } else if header[156] == LONGNAME {
        var pathSize := StrToInt(header[124..136]);
        var pathBlks := TarfsBlocks(pathSize);
        curoff := curoff + 1;
        if curoff + pathBlks >= |io.blocks| {
          return None;
        }
        assert forall i :: off < i <= off + 1 + pathBlks ==> IsTar(io.blocks[i]);
        text := CString(Concat(io.blocks[curoff..curoff + pathBlks]));
        curoff := curoff + pathBlks;
        x := io.ReadBlock(curoff);
        header := x.bytes;
      } else {
        return None;
      }
      file := TakeEntry(io, header, text);
    }

    /** The entry of the header at curoff; curoff moves behind its data. */
    method TakeEntry(io: FsIO, header: seq<byte>, text: seq<byte>) returns (file: Option<File>)
      requires curoff < |io.blocks| && io.blocks[curoff] == Raw(header) && |header| == TAR_BLOCKSIZE && 0 !in text
      modifies this
      ensures match EntryAt(io.blocks, old(curoff), text)
              case Entry(f, next) => file == Some(f) && curoff == next
              case _ => file == None
    {
      var names := CopyAndParse(text);
      if names.None? {
        return None;
      }
      var dataBlks := 0;
      if header[156] == REGTYPE {
        var dataSize := StrToInt(header[124..136]);
        dataBlks := TarfsBlocks(dataSize);
      }
      var addr := Ext(0, curoff + 1, dataBlks);
      file := Some(File(names.value, addr, curoff, header));
      curoff := curoff + addr.nblks + 1;
    }

    /** The path is copied to a buffer of its own, with its NUL, and split there. */
    method CopyAndParse(text: seq<byte>) returns (names: Option<Path>)
      requires 0 !in text
      ensures names == SplitPath(text)
    {
      var path := new byte[|text| + 1](i requires 0 <= i <= |text| => if i < |text| then text[i] else 0);
      assert path[..|text|] == text;
      assert forall i :: 0 <= i < |text| ==> path[i] == text[i] && text[i] in text;
      names := ParsePath(path, |text|);
    }
  }

  // ----- archives

  /** A GNU 'L' record: its header and the blocks that hold the path. */
  datatype LongName = LongName(header: seq<byte>, blocks: seq<Block>)

  datatype Item = Item(long: Option<LongName>, header: seq<byte>, data: seq<Block>)

  predicate LongOk(l: LongName) {
    && |l.header| == TAR_BLOCKSIZE && l.header[0] != 0 && l.header[156] == LONGNAME
    && |l.blocks| == TarfsBlocks(Strtoull8(l.header[124..136]))
    && (forall b :: b in l.blocks ==> IsTar(b))
    && TAR_BLOCKSIZE * |l.blocks| <= MAXPATHLEN && 0 in Concat(l.blocks)
  }

  function Text(item: Item): seq<byte> {
    if item.long.Some? then CString(Concat(item.long.value.blocks)) else CString(item.header)
  }

  /** A regular file, directory or symbolic link with its data in full. */
  predicate ItemForm(item: Item) {
    && |item.header| == TAR_BLOCKSIZE
    && GetFtype(item.header[156]) != NOFMT
    && (item.long.Some? ==> LongOk(item.long.value))
    && (item.long.None? ==> 0 < |CString(item.header)| < 100)
    && |item.data| == (if item.header[156] == REGTYPE then TarfsBlocks(Strtoull8(item.header[124..136])) else 0)
  }

  /** Its path is one the builder takes, its mode field does not change its kind, its link target ends in the header. */
  predicate ItemOk(item: Item) {
    && ItemForm(item)
    && FileOf(item, 0).ModeFmt() == GetFtype(item.header[156])
    && (item.header[156] == REGTYPE ==> NoWrap(Strtoull8(item.header[124..136])))
    && (item.header[156] == SYMTYPE ==> 0 in item.header[157..])
    && SplitPath(Text(item)).Some? && ValidPath(SplitPath(Text(item)).value)
  }

  function LongBlocks(item: Item): seq<Block> {
    if item.long.Some? then [Raw(item.long.value.header)] + item.long.value.blocks else []
  }

  /** The item's blocks: long name, header, data. */
  function Lay(item: Item): seq<Block> {
    LongBlocks(item) + [Raw(item.header)] + item.data
  }

  /** The entry an item at block `off` stands for. */
  function FileOf(item: Item, off: nat): File {
    var hdr := off + |LongBlocks(item)|;
    var path := SplitPath(Text(item));
    File(if path.Some? then path.value else [], Ext(0, hdr + 1, |item.data|), hdr, item.header)
  }

  function LayAll(items: seq<Item>): seq<Block> {
    if items == [] then [] else LayAll(items[..|items| - 1]) + Lay(items[|items| - 1])
  }

  function FilesOf(items: seq<Item>): (r: seq<File>)
    ensures |r| == |items|
  {
    if items == [] then []
    else
      var init := items[..|items| - 1];
      FilesOf(init) + [FileOf(items[|items| - 1], |LayAll(init)|)]
  }

  /** An entry whose path is no path: it has no component, or one that is "." or "..". */
  predicate PathlessAt(tar: seq<Block>, n: nat, item: Item) {
    && ItemForm(item) && SplitPath(Text(item)).None?
    && n + |Lay(item)| <= |tar| && tar[n..n + |Lay(item)|] == Lay(item)
  }

  /** Where the walk ends: a zero block, a record of a type it does not know, or an entry without a path. */
  ghost predicate Stops(tar: seq<Block>, n: nat) {
    && n < |tar| && IsTar(tar[n])
    && (|| tar[n].bytes[0] == 0
        || (!IsPosixFlag(tar[n].bytes[156]) && tar[n].bytes[156] != LONGNAME)
        || exists item :: PathlessAt(tar, n, item))
  }

  /** An archive: the items up to where the walk ends, and anything from there on. */
  ghost predicate IsArchive(tar: seq<Block>, items: seq<Item>) {
    var n := |LayAll(items)|;
    && (forall i :: i in items ==> ItemOk(i))
    && n <= |tar| && tar[..n] == LayAll(items) && Stops(tar, n)
  }

  lemma FileOfValid(item: Item, off: nat)
    requires ItemOk(item)
    ensures FileOf(item, off).Valid()
  {
  }

  lemma FileOfWithin(item: Item, off: nat)
    requires ItemForm(item)
    ensures FileOf(item, off).HasHeader() && FileOf(item, off).Blocks() == |item.data|
    ensures FileOf(item, off).Within(off + |Lay(item)|)
  {
    hide Text, CString, SplitPath, Strtoull8, LongOk, LongBlocks;
  }

  lemma LaidAt(blocks: seq<Block>, off: nat, item: Item)
    requires ItemForm(item) && off + |Lay(item)| <= |blocks|
    requires blocks[off..off + |Lay(item)|] == Lay(item)
    ensures var hdr := off + |LongBlocks(item)|;
            && hdr < |blocks| && blocks[hdr] == Raw(item.header)
            && blocks[off..hdr] == LongBlocks(item)
  {
    hide ItemForm;
    var hdr := off + |LongBlocks(item)|;
    var at := blocks[off..off + |Lay(item)|];
    assert at[|LongBlocks(item)|] == blocks[hdr];
    assert at[..|LongBlocks(item)|] == blocks[off..hdr];
  }

  lemma {:induction false} NextLong(blocks: seq<Block>, off: nat, item: Item)
    requires var hdr := off + |LongBlocks(item)|;
             hdr < |blocks| && blocks[hdr] == Raw(item.header) && blocks[off..hdr] == LongBlocks(item)
    requires item.long.Some? && ItemForm(item)
    ensures Next(blocks, off) == EntryAt(blocks, off + |LongBlocks(item)|, Text(item))
  {
    hide Concat, CString, SplitPath, Strtoull8, EntryAt;
    var l := item.long.value;
    var hdr := off + |LongBlocks(item)|;
    assert blocks[off] == blocks[off..hdr][0] == Raw(l.header);
    forall i | off < i < hdr
      ensures IsTar(blocks[i])
    {
      assert blocks[i] == blocks[off..hdr][i - off] == l.blocks[i - off - 1];
    }
    assert blocks[off + 1..hdr] == blocks[off..hdr][1..] == l.blocks;
  }

  /**
    * The exact condition for a long name: with its text and the after header in the archive, the record has a meaning
    * if and only if the text fits the path buffer and has a NUL.
    */
  lemma LongMeaning(blocks: seq<Block>, off: nat, header: seq<byte>, text: seq<Block>, after: seq<byte>)
    requires |header| == TAR_BLOCKSIZE && header[0] != 0 && header[156] == LONGNAME
    requires |text| == TarfsBlocks(Strtoull8(header[124..136])) && (forall b :: b in text ==> IsTar(b))
    requires off + |text| + 1 < |blocks| && |after| == TAR_BLOCKSIZE
    requires blocks[off..off + |text| + 2] == [Raw(header)] + text + [Raw(after)]
    ensures Next(blocks, off).Foreign? <==> |text| > 8 || 0 !in Concat(text)
  {
    hide Concat, CString, SplitPath, Strtoull8, EntryAt;
    var at := blocks[off..off + |text| + 2];
    forall i | off <= i < off + |text| + 2
      ensures blocks[i] == if i == off then Raw(header) else if i <= off + |text| then text[i - off - 1] else Raw(after)
    {
      assert blocks[i] == at[i - off];
    }
    assert blocks[off + 1..off + 1 + |text|] == text;
    EntryNamed(blocks, off + 1 + |text|, CString(Concat(text)));
  }

  /** A header of the archive always has a meaning. */
  lemma EntryNamed(blocks: seq<Block>, hdr: nat, text: seq<byte>)
    requires hdr < |blocks| && IsTar(blocks[hdr])
    ensures !EntryAt(blocks, hdr, text).Foreign?
  {
    hide SplitPath, Strtoull8;
  }

  lemma {:induction false} NextShort(blocks: seq<Block>, off: nat, item: Item)
    requires ItemForm(item) && item.long.None?
    requires off < |blocks| && blocks[off] == Raw(item.header)
    ensures Next(blocks, off) == EntryAt(blocks, off, Text(item))
  {
    hide Concat, SplitPath, Strtoull8, EntryAt;
    assert CString(item.header) == item.header[..|CString(item.header)|];
    assert item.header[0] in CString(item.header);
  }

  lemma {:induction false} EntryAtItem(blocks: seq<Block>, off: nat, item: Item)
    requires var hdr := off + |LongBlocks(item)|; hdr < |blocks| && blocks[hdr] == Raw(item.header)
    requires ItemForm(item)
    ensures EntryAt(blocks, off + |LongBlocks(item)|, Text(item))
         == if SplitPath(Text(item)).Some? then Entry(FileOf(item, off), off + |Lay(item)|) else End
  {
    hide Text, SplitPath, Strtoull8, LongBlocks, LongOk, ValidPath;
  }

  /**
    * get at an item, whatever else is in the file: it returns the entry and moves behind its data if the item's
    * path splits, else it ends the walk.
    */
  lemma {:induction false} NextItem(blocks: seq<Block>, off: nat, item: Item)
    requires ItemForm(item) && off + |Lay(item)| <= |blocks|
    requires blocks[off..off + |Lay(item)|] == Lay(item)
    ensures Next(blocks, off)
         == if SplitPath(Text(item)).Some? then Entry(FileOf(item, off), off + |Lay(item)|) else End
  {
    hide Next, EntryAt, Text, ItemForm, FileOf, Lay, SplitPath;
    LaidAt(blocks, off, item);
    EntryAtItem(blocks, off, item);
    if item.long.Some? {
      NextLong(blocks, off, item);
    } else {
      NextShort(blocks, off, item);
    }
  }

  lemma {:induction false} StopsThere(blocks: seq<Block>, tar: seq<Block>, n: nat)
    requires Stops(tar, n) && tar <= blocks
    ensures Next(blocks, n) == End
  {
    hide ItemForm, Text, FileOf, SplitPath, Lay;
    assert blocks[n] == tar[n];
    if item :| PathlessAt(tar, n, item) {
      hide Next;
      assert blocks[n..n + |Lay(item)|] == tar[n..n + |Lay(item)|];
      NextItem(blocks, n, item);
    }
  }

  lemma {:induction false} LayAllPrefix(items: seq<Item>, k: nat)
    requires k < |items|
    ensures LayAll(items[..k]) + Lay(items[k]) <= LayAll(items)
  {
    if k < |items| - 1 {
      var init := items[..|items| - 1];
      LayAllPrefix(init, k);
      assert init[..k] == items[..k];
    } else {
      assert items[..k] == items[..|items| - 1];
    }
  }

  lemma SliceOf(a: seq<Block>, b: seq<Block>, c: seq<Block>)
    requires a + b <= c
    ensures c[|a|..|a| + |b|] == b
  {
    assert c[..|a| + |b|] == a + b;
  }

  /**
    * On any file that starts with the archive's bytes -- whatever was appended behind them -- get at the start
    * of item k returns that item's entry and stops at the start of item k + 1; behind the last it returns nothing.
    */
  lemma {:induction false} WalkStep(blocks: seq<Block>, tar: seq<Block>, items: seq<Item>, k: nat)
    requires IsArchive(tar, items) && tar <= blocks && k <= |items|
    ensures k == |items| ==> Next(blocks, |LayAll(items)|) == End
    ensures k < |items| ==>
              && items[k] in items
              && Next(blocks, |LayAll(items[..k])|)
              == Entry(FileOf(items[k], |LayAll(items[..k])|), |LayAll(items[..k + 1])|)
  {
    hide ItemForm, Lay, FileOf, CString, SplitPath, Next, Stops, ValidPath, Text;
    if k == |items| {
      StopsThere(blocks, tar, |LayAll(items)|);
    } else {
      LayAllPrefix(items, k);
      var off := |LayAll(items[..k])|;
      SliceOf(LayAll(items[..k]), Lay(items[k]), blocks);
      assert items[k] in items && ItemOk(items[k]);
      NextItem(blocks, off, items[k]);
      assert items[..k + 1][..k] == items[..k];
    }
  }

  lemma {:induction false} FilesOfAt(items: seq<Item>, k: nat)
    requires k < |items|
    ensures FilesOf(items)[k] == FileOf(items[k], |LayAll(items[..k])|)
  {
    hide FileOf, LayAll;
    var init := items[..|items| - 1];
    if k < |items| - 1 {
      FilesOfAt(init, k);
      assert init[..k] == items[..k];
    }
  }

  // ----- what one step consumes

  /** `n` blocks hold `size` bytes, and no fewer do. */
  predicate Fill(n: nat, size: nat) {
    size <= 512 * n < size + 512
  }

  /** A size that can be rounded up in 64 bits. */
  predicate Fits(size: nat) {
    size <= 0xFFFF_FFFF_FFFF_FE00
  }

  /** TARFS_BLOCKS is that number. */
  lemma FillIs(n: nat, size: nat)
    requires Fits(size)
    ensures NoWrap(size) && (Fill(n, size) <==> n == TarfsBlocks(size))
  {
    BlocksLeast(size, n);
  }

  /** From the header on: where the data of an entry is and how many blocks it has. */
  lemma EntryExtent(blocks: seq<Block>, hdr: nat, text: seq<byte>)
    requires EntryAt(blocks, hdr, text).Entry?
    ensures var f, next := EntryAt(blocks, hdr, text).f, EntryAt(blocks, hdr, text).next;
            && hdr < |blocks| && blocks[hdr] == Raw(f.header) && |f.header| == 512
            && f.blknoHeader == hdr && f.addr.off == 0 && f.addr.blkno == hdr + 1 && next == f.addr.blkno + f.addr.nblks
            && (f.header[156] != 48 ==> f.addr.nblks == 0)
            && (f.header[156] == 48 && Fits(Strtoull8(f.header[124..136])) ==>
                  Fill(f.addr.nblks, Strtoull8(f.header[124..136])))
  {
    hide SplitPath, Strtoull8, TarfsBlocks;
    var size := Strtoull8(blocks[hdr].bytes[124..136]);
    if Fits(size) {
      FillIs(TarfsBlocks(size), size);
    }
  }

  /**
    * What a call of get consumes: the entry's header directly, or behind the blocks that hold the text of an 'L'
    * record; then the blocks that hold its data.
    */
  lemma StepExtent(blocks: seq<Block>, off: nat)
    requires Next(blocks, off).Entry?
    ensures var f, next := Next(blocks, off).f, Next(blocks, off).next;
            && off < |blocks| && blocks[off].Raw? && |blocks[off].bytes| == 512
            && f.blknoHeader >= off && (blocks[off].bytes[156] == 76 <==> f.blknoHeader > off)
            && (blocks[off].bytes[156] == 76 && Fits(Strtoull8(blocks[off].bytes[124..136])) ==>
                  Fill(f.blknoHeader - off - 1, Strtoull8(blocks[off].bytes[124..136])))
    ensures var f, next := Next(blocks, off).f, Next(blocks, off).next;
            && f.blknoHeader < |blocks| && blocks[f.blknoHeader] == Raw(f.header) && |f.header| == 512
            && f.addr.off == 0 && f.addr.blkno == f.blknoHeader + 1 && next == f.addr.blkno + f.addr.nblks
            && (f.header[156] != 48 ==> f.addr.nblks == 0)
            && (f.header[156] == 48 && Fits(Strtoull8(f.header[124..136])) ==>
                  Fill(f.addr.nblks, Strtoull8(f.header[124..136])))
  {
    hide EntryAt, SplitPath, Strtoull8, CString, Concat, TarfsBlocks;
    var h := blocks[off].bytes;
    if IsPosixFlag(h[156]) {
      EntryExtent(blocks, off, CString(h));
    } else {
      var size := Strtoull8(h[124..136]);
      var hdr := off + 1 + TarfsBlocks(size);
      EntryExtent(blocks, hdr, CString(Concat(blocks[off + 1..hdr])));
      if Fits(size) {
        FillIs(TarfsBlocks(size), size);
      }
    }
  }

  /** How the first header decides. */
  lemma FlagMeaning(blocks: seq<Block>, off: nat)
    requires off < |blocks| && blocks[off].Raw? && |blocks[off].bytes| == 512
    ensures var h := blocks[off].bytes;
            && (h[0] == 0 ==> Next(blocks, off) == End)
            && (h[0] != 0 && 0 in h && (h[156] == 0 || 48 <= h[156] <= 55) ==>
                  Next(blocks, off) == EntryAt(blocks, off, CString(h)))
            && (h[156] != 0 && h[156] != 76 && !(48 <= h[156] <= 55) ==> Next(blocks, off) == End)
  {
    hide EntryAt, SplitPath, Strtoull8, CString, Concat, TarfsBlocks;
  }

  // ----- names

  /** The name blocks are joined in their order: block `k` fills the bytes from 512 * k on. */
  lemma {:induction false} ConcatAt(blocks: seq<Block>, k: nat)
    requires forall b :: b in blocks ==> IsTar(b)
    ensures |Concat(blocks)| == 512 * |blocks|
    ensures k < |blocks| ==> IsTar(blocks[k]) && Concat(blocks)[512 * k..512 * k + 512] == blocks[k].bytes
  {
    if blocks != [] {
      var rest := Concat(blocks[1..]);
      ConcatAt(blocks[1..], if k > 0 then k - 1 else 0);
      assert blocks[0] in blocks;
      if k == 0 {
        assert (blocks[0].bytes + rest)[..512] == blocks[0].bytes;
      } else if k < |blocks| {
        assert (blocks[0].bytes + rest)[512 * k..512 * k + 512] == rest[512 * (k - 1)..512 * (k - 1) + 512];
      }
    }
  }

  /** `s` in blocks of 512 bytes. */
  function Cut(s: seq<byte>): (r: seq<Block>)
    ensures |r| == |s| / 512
    ensures forall k :: 0 <= k < |r| ==> r[k].Raw? && |r[k].bytes| == 512 && r[k].bytes == s[512 * k..512 * k + 512]
  {
    seq(|s| / 512, k requires 0 <= k < |s| / 512 => Raw(s[512 * k..512 * k + 512]))
  }

  lemma {:induction false} ConcatCut(s: seq<byte>)
    requires |s| % 512 == 0
    ensures Concat(Cut(s)) == s
  {
    var bs := Cut(s);
    hide Concat, Cut;
    ConcatAt(bs, 0);
    var c := Concat(bs);
    forall i | 0 <= i < |s|
      ensures c[i] == s[i]
    {
      ConcatAt(bs, i / 512);
      assert c[512 * (i / 512)..512 * (i / 512) + 512][i % 512] == c[i];
      assert s[512 * (i / 512)..512 * (i / 512) + 512][i % 512] == s[i];
    }
  }

  /**
    * A name without a NUL, ended by one, padded and cut into at most eight blocks behind an 'L' record: get takes
    * exactly that name for the entry of the header behind them.
    */
  lemma LongRoundTrip(blocks: seq<Block>, off: nat, first: seq<byte>, name: seq<byte>, pad: seq<byte>, h: seq<byte>)
    requires |first| == |h| == 512 && first[0] != 0 && first[156] == 76 && 0 !in name
    requires |name| + 1 + |pad| <= 4096 && (|name| + 1 + |pad|) % 512 == 0
    requires Fill((|name| + 1 + |pad|) / 512, Strtoull8(first[124..136]))
    requires var text := Cut(name + [0] + pad);
             off + |text| + 2 <= |blocks| && blocks[off..off + |text| + 2] == [Raw(first)] + text + [Raw(h)]
    ensures var hdr := off + 1 + (|name| + 1 + |pad|) / 512;
            match SplitPath(name)
            case None => Next(blocks, off) == End
            case Some(path) =>
              && Next(blocks, off).Entry? && Next(blocks, off).f.path == path
              && Next(blocks, off).f.header == h && Next(blocks, off).f.blknoHeader == hdr
  {
    hide Concat, CString, SplitPath, Strtoull8, Cut;
    var all := name + [0] + pad;
    var text := Cut(all);
    var size := Strtoull8(first[124..136]);
    FillIs(|text|, size);
    ConcatCut(all);
    assert all == name + ([0] + pad);
    StringOf(name, [0] + pad);
    TextThere(blocks, off, first, text, h);
  }

  lemma TextThere(blocks: seq<Block>, off: nat, first: seq<byte>, text: seq<Block>, h: seq<byte>)
    requires |first| == |h| == 512 && first[0] != 0 && first[156] == 76
    requires |text| == TarfsBlocks(Strtoull8(first[124..136])) <= 8 && (forall b :: b in text ==> IsTar(b))
    requires off + |text| + 2 <= |blocks| && blocks[off..off + |text| + 2] == [Raw(first)] + text + [Raw(h)]
    requires 0 in Concat(text)
    ensures var hdr := off + 1 + |text|;
            && hdr < |blocks| && blocks[hdr] == Raw(h)
            && Next(blocks, off) == EntryAt(blocks, hdr, CString(Concat(text)))
  {
    hide Concat, CString, SplitPath, Strtoull8, EntryAt, TarfsBlocks;
    var at := blocks[off..off + |text| + 2];
    forall i | off <= i < off + |text| + 2
      ensures blocks[i] == if i == off then Raw(first) else if i <= off + |text| then text[i - off - 1] else Raw(h)
    {
      assert blocks[i] == at[i - off];
    }
    assert blocks[off + 1..off + 1 + |text|] == text;
  }

  /** Such a record is one of an archive's long names, and gives its item that name. */
  lemma LongText(first: seq<byte>, name: seq<byte>, pad: seq<byte>, item: Item)
    requires |first| == 512 && first[0] != 0 && first[156] == 76 && 0 !in name
    requires |name| + 1 + |pad| <= 4096 && (|name| + 1 + |pad|) % 512 == 0
    requires Fill((|name| + 1 + |pad|) / 512, Strtoull8(first[124..136]))
    requires item.long == Some(LongName(first, Cut(name + [0] + pad)))
    ensures LongOk(item.long.value) && Text(item) == name
  {
    hide Concat, CString, Strtoull8, Cut;
    var all := name + [0] + pad;
    FillIs(|Cut(all)|, Strtoull8(first[124..136]));
    ConcatCut(all);
    assert all == name + ([0] + pad);
    StringOf(name, [0] + pad);
    assert all[|name|] == 0;
  }

  /** A short name is what the header starts with. */
  lemma ShortRoundTrip(blocks: seq<Block>, off: nat, name: seq<byte>, h: seq<byte>)
    requires off < |blocks| && blocks[off] == Raw(h) && |h| == 512 && (h[156] == 0 || 48 <= h[156] <= 55)
    requires 0 < |name| < 100 && 0 !in name && h[..|name|] == name && h[|name|] == 0
    ensures match SplitPath(name)
            case None => Next(blocks, off) == End
            case Some(path) =>
              Next(blocks, off).Entry? && Next(blocks, off).f.path == path && Next(blocks, off).f.header == h
  {
    hide CString, SplitPath, Strtoull8;
    assert h == name + h[|name|..];
    StringOf(name, h[|name|..]);
    assert name[0] in name && h[0] == h[..|name|][0];
  }
}
