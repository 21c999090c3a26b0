/** The ext4 reader of `ext4_reader.cpp` over a block device: its loops and buffers, each tied to the
    disk-level meaning in Ext4Layout, Ext4Files and Ext4Paths. */
module Ext4Reader {
  import opened Bytes
  import opened Text
  import opened SparseImage
  import opened BlockDevice
  import opened Ext4Layout
  import opened Ext4Files
  import opened Ext4Paths

  /** A vector the caller hands in to be filled. */
  class Vector<T> {
    var items: seq<T>

    constructor ()
      ensures items == []
    {
      items := [];
    }
  }

  class Ext4Reader {
    const dev: IBlockDevice
    var geometry: Geometry

    ghost const disk: Disk

    constructor (dev: IBlockDevice)
      requires ValidView(dev.View())
      ensures this.dev == dev && disk == DiskOf(dev.View())
    {
      this.dev, disk := dev, DiskOf(dev.View());
      geometry := Geometry(4096, 0, 256, 32, false);
    }

    /** `disk` is what the device shows. */
    ghost predicate Attached()
      reads if dev.SparseDevice? then {dev.sparse} else {}
    {
      ValidView(dev.View()) && disk == DiskOf(dev.View())
    }

    /** The file system's block size is the device's, and its records never straddle a block. */
    ghost predicate Valid()
      reads this, if dev.SparseDevice? then {dev.sparse} else {}
    {
      Attached() && Mounted(geometry, disk)
    }

    static method Open(dev: IBlockDevice) returns (reader: Ext4Reader?)
      requires ValidView(dev.View()) && SuperblockFits(dev.BlockSize())
      ensures reader == null <==> Mount(DiskOf(dev.View())) == None
      ensures reader != null ==> fresh(reader) && reader.dev == dev && reader.disk == DiskOf(dev.View())
                                 && reader.geometry == Mount(reader.disk).value && reader.Attached()
      ensures reader != null && Mounted(reader.geometry, reader.disk) ==> reader.Valid()
    {
      var r := new Ext4Reader(dev);
      var ok := r.Init();
      if !ok {
        return null;
      }
      reader := r;
    }

    method Init() returns (ok: bool)
      requires Attached() && SuperblockFits(dev.BlockSize())
      modifies this
      ensures ok <==> Mount(disk).Some?
      ensures ok ==> geometry == Mount(disk).value
    {
      hide ParseSuperblock, DiskOf, ValidView;
      var size := dev.BlockSize();
      var sbBlock := if size == 1024 then 1 else 0;
      var sbOffset := if size == 1024 then 0 else 1024;
      var blockBuf;
      ok, blockBuf := ReadFresh(sbBlock);
      if !ok {
        return;
      }
      var sb := ParseSuperblock(blockBuf[sbOffset..sbOffset + SUPERBLOCK_SIZE]);
      assert blockBuf[sbOffset..sbOffset + SUPERBLOCK_SIZE]
          == disk.Read(sbBlock).value[sbOffset..sbOffset + SUPERBLOCK_SIZE];
      if sb == None {
        return false;
      }
      geometry := sb.value;
    }

    /** Reads one block into a new buffer of zeros. */
    method ReadFresh(block: nat) returns (ok: bool, buffer: array<byte>)
      requires Attached()
      ensures fresh(buffer) && disk.blockSize == dev.BlockSize() == buffer.Length
      ensures ok <==> disk.Read(block).Some?
      ensures ok ==> buffer[..] == disk.Read(block).value
    {
      hide ReadInto;
      var size := dev.BlockSize();
      buffer := new byte[size](_ => 0);
      assert buffer[0..0 + size] == Zeros(size);
      ok := dev.ReadBlock(block, buffer, 0);
      NoBlockBehind(dev.View(), block);
    }

    /** Reads one block into a whole buffer. */
    method ReadDisk(block: nat, buffer: array<byte>) returns (ok: bool)
      requires Valid() && buffer.Length == geometry.blockSize
      modifies buffer
      ensures ok <==> disk.Read(block).Some?
      ensures ok ==> buffer[..] == disk.Read(block).value
    {
      ghost var was := buffer[..];
      assert buffer[0..0 + dev.BlockSize()] == was;
      AddressableBlocks(geometry);
      ReadIntoIsBlock(dev.View(), block, was);
      ok := dev.ReadBlock(block, buffer, 0);
      if ok {
        assert Splice(was, 0, Block(dev.View(), block).value) == Block(dev.View(), block).value;
      }
    }

    method GetInodeTableBlock(group: nat) returns (table: nat)
      requires Valid()
      ensures table == InodeTable(geometry, disk, group)
    {
      hide Addressable, ValidView, DiskOf, TableField;
      SlotFits(geometry, group);
      var gdtStartBlock := if geometry.blockSize == 1024 then 2 else 1;
      var descOffsetBytes := group * geometry.descSize;
      QuotientNat(descOffsetBytes, geometry.blockSize);
      var gdtBlock := gdtStartBlock + descOffsetBytes / geometry.blockSize;
      var offsetInBlock := descOffsetBytes % geometry.blockSize;
      var blockBuf := new byte[geometry.blockSize](_ => 0);
      var ok := ReadDisk(gdtBlock, blockBuf);
      if !ok {
        return 0;
      }
      table := TableField(geometry, blockBuf[..], offsetInBlock);
    }

    method ReadInode(ino: nat, outInode: array<byte>) returns (ok: bool)
      requires Valid() && outInode.Length == INODE_RECORD
      modifies outInode
      ensures ok <==> Inode(geometry, disk, ino).Some?
      ensures ok ==> outInode[..] == Inode(geometry, disk, ino).value
      ensures !ok ==> outInode[..] == old(outInode[..])
    {
      if ino == 0 || geometry.inodesPerGroup == 0 {
        return false;
      }
      hide Addressable, ValidView, DiskOf, Group, Slot, InodeTable;
      var group := Group(geometry, ino);
      var index := Slot(geometry, ino);
      SlotFits(geometry, index);
      var itableBlock := GetInodeTableBlock(group);
      if itableBlock == 0 {
        return false;
      }
      var byteOffset := index * geometry.inodeSize;
      QuotientNat(byteOffset, geometry.blockSize);
      var targetBlock := (itableBlock + byteOffset / geometry.blockSize) % TWO_64;
      var offsetInBlock := byteOffset % geometry.blockSize;
      var blockBuf := new byte[geometry.blockSize](_ => 0);
      ok := ReadDisk(targetBlock, blockBuf);
      if !ok {
        return;
      }
      forall j | 0 <= j < INODE_RECORD {
        outInode[j] := blockBuf[offsetInBlock + j];
      }
      assert outInode[..] == blockBuf[..][offsetInBlock..offsetInBlock + INODE_RECORD];
    }

    /** Appends the (start, length) ranges of the tree under ptr[at..at + n] in order. The tree is
        the finite unfolding without which the source does not return. */
    method ReadExtentTree(ptr: array<byte>, at: nat, n: nat, blockRanges: Vector<(nat, nat)>, ghost tree: ExtentTree)
      requires Valid() && at + n <= ptr.Length && Unfolds(disk, ptr[at..at + n], tree)
      modifies blockRanges
      ensures blockRanges.items == old(blockRanges.items) + Ranges(InOrder(tree))
      decreases tree, 1
    {
      var node := ptr[at..at + n];
      if !HasMagic(node) {
        return;
      }
      if Depth(node) == 0 {
        ReadLeaf(node, blockRanges);
      } else {
        ReadIndex(node, blockRanges, tree);
      }
    }

    static method ReadLeaf(node: seq<byte>, blockRanges: Vector<(nat, nat)>)
      requires EntriesFit(node)
      modifies blockRanges
      ensures blockRanges.items == old(blockRanges.items) + Ranges(LeafExtents(node))
    {
      for i := 0 to EntryCount(node)
        invariant blockRanges.items == old(blockRanges.items) + Ranges(LeafExtents(node)[..i])
      {
        var e := ExtentAt(node, i);
        assert LeafExtents(node)[..i + 1] == LeafExtents(node)[..i] + [e];
        RangesAppend(LeafExtents(node)[..i], [e]);
        blockRanges.items := blockRanges.items + [(e.start, e.len)];
      }
      assert LeafExtents(node)[..EntryCount(node)] == LeafExtents(node);
    }

    /** One child buffer serves all children, one after the other. */
    method ReadIndex(node: seq<byte>, blockRanges: Vector<(nat, nat)>, ghost tree: ExtentTree)
      requires Valid() && Unfolds(disk, node, tree) && HasMagic(node) && Depth(node) > 0
      modifies blockRanges
      ensures blockRanges.items == old(blockRanges.items) + Ranges(InOrder(tree))
      decreases tree, 0
    {
      hide ValidView, DiskOf, Addressable, Mounted, InOrder, ChildAt;
      ghost var kids := tree.kids;
      var childBuf := new byte[geometry.blockSize](_ => 0);
      assert kids[..0] == [];
      for i := 0 to EntryCount(node)
        invariant blockRanges.items == old(blockRanges.items) + Ranges(InOrderAll(kids[..i]))
      {
        assert KidUnfolds(disk, ChildAt(node, i), kids[i]);
        ReadChild(ChildAt(node, i), childBuf, blockRanges, kids[i]);
        RangesNext(kids, i);
      }
      assert kids[..EntryCount(node)] == kids;
      InOrderOfIndex(tree);
    }

    /** A child whose block cannot be read is skipped without a word. */
    method ReadChild(childBlock: nat, childBuf: array<byte>, blockRanges: Vector<(nat, nat)>, ghost kid: ExtentTree)
      requires Valid() && childBuf.Length == geometry.blockSize && KidUnfolds(disk, childBlock, kid)
      modifies blockRanges, childBuf
      ensures blockRanges.items == old(blockRanges.items) + Ranges(InOrder(kid))
      decreases kid, 2
    {
      var ok := ReadDisk(childBlock, childBuf);
      if ok {
        assert childBuf[0..0 + childBuf.Length] == disk.Read(childBlock).value;
        ReadExtentTree(childBuf, 0, childBuf.Length, blockRanges, kid);
      }
    }

    method ReadFileDataByInode(ino: nat, outData: Vector<byte>) returns (ok: bool)
      requires Valid() && FileOf(geometry, disk, ino) != Stuck
      modifies outData
      ensures ok <==> FileOf(geometry, disk, ino).Ok?
      ensures ok ==> outData.items == FileOf(geometry, disk, ino).value
    {
      hide Mounted, ValidView, DiskOf, Inode, Unfolds, PhysBlocks, TakeBlocks, InodeSize, Ranges;
      var inode := new byte[INODE_RECORD](_ => 0);
      ok := ReadInode(ino, inode);
      if !ok {
        return;
      }
      var fileSize := InodeSize(inode[..]);
      outData.items := [];
      var blockRanges := new Vector<(nat, nat)>();
      assert inode[40..40 + 60] == InodeBlocks(inode[..]);
      ghost var tree :| Unfolds(disk, InodeBlocks(inode[..]), tree);
      ExtentsOfTree(disk, InodeBlocks(inode[..]), tree);
      ReadExtentTree(inode, 40, 60, blockRanges, tree);
      assert blockRanges.items == Ranges(InOrder(tree));
      ok := CopyRanges(blockRanges.items, fileSize, outData);
    }

    /** The copy loop over the ranges. */
    method CopyRanges(ranges: seq<(nat, nat)>, fileSize: nat, outData: Vector<byte>) returns (ok: bool)
      requires Valid() && outData.items == []
      modifies outData
      ensures var r := TakeBlocks(disk, PhysBlocks(ranges), fileSize);
              (ok <==> r.Some?) && (ok ==> outData.items == r.value)
    {
      hide ValidView, DiskOf, Addressable, Mounted, TakeBlocks;
      var bytesRemaining := fileSize;
      ghost var whole := TakeBlocks(disk, PhysBlocks(ranges), fileSize);
      assert ranges[0..] == ranges;
      assert whole.Some? ==> [] + whole.value == whole.value;
      for r := 0 to |ranges|
        invariant Remaining(whole, outData.items, TakeBlocks(disk, PhysBlocks(ranges[r..]), bytesRemaining))
      {
        PhysFromStart(ranges, r);
        ghost var before, tail := outData.items, PhysBlocks(ranges[r + 1..]);
        ghost var copied;
        ok, bytesRemaining, copied := CopyRange(ranges[r].0, ranges[r].1, bytesRemaining, outData, tail);
        if !ok {
          return;
        }
        RemainingJoin(whole, before, copied, TakeBlocks(disk, tail, bytesRemaining));
      }
      CopyEnds(ranges, bytesRemaining);
      assert outData.items + [] == outData.items;
      return true;
    }

    lemma CopyEnds(ranges: seq<(nat, nat)>, left: nat)
      requires disk.Valid()
      ensures TakeBlocks(disk, PhysBlocks(ranges[|ranges|..]), left) == Some([])
    {
      assert ranges[|ranges|..] == [];
    }

    /** Copies one range, stopping as soon as nothing remains; `tail` is what other ranges hold. */
    method CopyRange(startBlock: nat, count: nat, remaining: nat, outData: Vector<byte>, ghost tail: seq<nat>)
      returns (ok: bool, left: nat, ghost copied: seq<byte>)
      requires Valid()
      modifies outData
      ensures var whole := TakeBlocks(disk, BlockRun(startBlock, count) + tail, remaining);
              if ok then Remaining(whole, copied, TakeBlocks(disk, tail, left)) else whole == None
      ensures ok ==> outData.items == old(outData.items) + copied
    {
      hide ValidView, DiskOf, Addressable, Mounted, TakeBlocks;
      ghost var whole := TakeBlocks(disk, BlockRun(startBlock, count) + tail, remaining);
      assert whole.Some? ==> [] + whole.value == whole.value;
      left, copied := remaining, [];
      var blockBuf := new byte[geometry.blockSize](_ => 0);
      var b := 0;
      while b < count && left > 0
        invariant b <= count
        invariant Remaining(whole, copied, TakeBlocks(disk, BlockRun(startBlock + b, count - b) + tail, left))
        invariant outData.items == old(outData.items) + copied
      {
        var read := ReadDisk(startBlock + b, blockBuf);
        var toCopy := Min(left, geometry.blockSize);
        TakeStep(disk, startBlock + b, count - b, tail, left);
        if !read {
          return false, left, copied;
        }
        ghost var part := blockBuf[..toCopy];
        ghost var was := copied;
        RemainingJoin(whole, copied, part,
                      TakeBlocks(disk, BlockRun(startBlock + b + 1, count - b - 1) + tail, left - toCopy));
        outData.items := outData.items + blockBuf[..toCopy];
        copied := copied + part;
        Assoc(old(outData.items), was, part);
        left := left - toCopy;
        b := b + 1;
      }
      RunEnds(disk, startBlock + b, count - b, tail, left);
      ok := true;
    }

    method FindChildInode(dirIno: nat, name: seq<byte>) returns (ino: nat)
      requires Valid() && FindChild(geometry, disk, dirIno, name).Ok?
      ensures Ok(ino) == FindChild(geometry, disk, dirIno, name)
    {
      var dirData := new Vector<byte>();
      var ok := ReadFileDataByInode(dirIno, dirData);
      if !ok {
        return 0;
      }
      ino := ScanFor(dirData.items, name);
    }

    static method ScanFor(data: seq<byte>, name: seq<byte>) returns (ino: nat)
      requires Lookup(DirEntries(data, 0), name).Ok?
      ensures Ok(ino) == Lookup(DirEntries(data, 0), name)
    {
      hide DirEntries, Lookup, EntryAt;
      var offset := 0;
      while offset + DIR_ENTRY_HEADER <= |data|
        invariant Lookup(DirEntries(data, 0), name) == Lookup(DirEntries(data, offset), name)
        decreases |data| - offset
      {
        var recLen := LE16(data, offset + 4);
        if recLen == 0 {
          break;
        }
        var de := EntryAt(data, offset);
        DirEntriesCons(data, offset);
        LookupStep(de, DirEntries(data, offset + recLen), name);
        if de.inode != 0 && de.nameLen == |name| {
          if de.name == name {
            return de.inode;
          }
        }
        offset := offset + recLen;
      }
      LookupEnds(data, offset, name);
      return 0;
    }

    method ResolvePath(path: seq<byte>) returns (ino: nat)
      requires Valid() && Resolve(geometry, disk, path).Ok?
      ensures Ok(ino) == Resolve(geometry, disk, path)
    {
      RootResolves(geometry, disk);
      if path == [] || path == [SLASH] {
        return EXT4_ROOT_INO;
      }
      var rest := path;
      ino := EXT4_ROOT_INO;
      while rest != []
        invariant Walk(geometry, disk, ino, Components(rest)) == Resolve(geometry, disk, path)
        decreases |rest|
      {
        hide Components, ValidView, DiskOf, Addressable, Resolve, FindChild;
        var k := Find(rest, SLASH);
        var item := rest[..k];
        var next := Behind(rest, k);
        ComponentsStep(rest, k);
        rest := next;
        if item == [] || item == [DOT] {
          assert [] + Components(next) == Components(next);
          continue;
        }
        WalkStep(geometry, disk, ino, item, Components(next));
        ino := FindChildInode(ino, item);
        if ino == 0 {
          return 0;
        }
      }
    }

    method ReadFile(path: seq<byte>, outData: Vector<byte>) returns (ok: bool)
      requires Valid() && ReadPath(geometry, disk, path) != Stuck
      modifies outData
      ensures ok <==> ReadPath(geometry, disk, path).Ok?
      ensures ok ==> outData.items == ReadPath(geometry, disk, path).value
    {
      var ino := ResolvePath(path);
      if ino == 0 {
        return false;
      }
      ok := ReadFileDataByInode(ino, outData);
    }

    /** On success the entries are those of the listing, sorted: directories first, then by name. */
    method ListDirectory(path: seq<byte>, outEntries: Vector<FsFileEntry>) returns (ok: bool)
      requires Valid() && Listing(geometry, disk, path) != Stuck
      modifies outEntries
      ensures ok <==> Listing(geometry, disk, path).Ok?
      ensures ok ==> multiset(outEntries.items) == multiset(Listing(geometry, disk, path).value)
      ensures ok ==> SortedEntries(outEntries.items)
      ensures ok ==> forall i, j :: 0 <= i < j < |outEntries.items| ==>
                       InListingOrder(outEntries.items[i], outEntries.items[j])
      ensures !ok ==> outEntries.items == []
    {
      outEntries.items := [];
      var dirIno := ResolvePath(path);
      if dirIno == 0 {
        return false;
      }
      var dirData := new Vector<byte>();
      ok := ReadFileDataByInode(dirIno, dirData);
      if !ok {
        return;
      }
      CollectNeverFails(geometry, disk, path, DirEntries(dirData.items, 0));
      var collected := CollectEntries(path, dirData.items);
      var sorted := SortEntries(collected);
      SortedInOrder(sorted);
      outEntries.items := sorted;
    }

    method CollectEntries(path: seq<byte>, data: seq<byte>) returns (collected: seq<FsFileEntry>)
      requires Valid() && Collect(geometry, disk, path, DirEntries(data, 0)).Ok?
      ensures collected == Collect(geometry, disk, path, DirEntries(data, 0)).value
    {
      hide ValidView, DiskOf, Addressable, Inode, FileEntry, Hidden, EntryAt;
      collected := [];
      ghost var whole := Collect(geometry, disk, path, DirEntries(data, 0)).value;
      assert collected + whole == whole;
      var offset := 0;
      while offset + DIR_ENTRY_HEADER <= |data|
        invariant CollectsTo(geometry, disk, path, whole, collected, DirEntries(data, offset))
        decreases |data| - offset
      {
        var recLen := LE16(data, offset + 4);
        if recLen == 0 {
          break;
        }
        var de := EntryAt(data, offset);
        DirEntriesCons(data, offset);
        CollectStep(geometry, disk, path, whole, collected, de, DirEntries(data, offset + recLen));
        if de.inode != 0 && !Hidden(de.name) {
          var entry := EntryFor(path, de);
          collected := collected + [entry];
        }
        offset := offset + recLen;
      }
      assert collected + [] == collected;
    }

    method EntryFor(path: seq<byte>, de: DirEntry) returns (entry: FsFileEntry)
      requires Valid()
      ensures entry == FileEntry(geometry, disk, path, de)
    {
      var size := SizeOf(de.inode);
      entry := FsFileEntry(de.name, ChildPath(path, de.name), de.inode, size,
                           de.fileType == 2, de.fileType == 7);
    }

    method SizeOf(ino: nat) returns (size: nat)
      requires Valid()
      ensures size == var i := Inode(geometry, disk, ino); if i.Some? then InodeSize(i.value) else 0
    {
      var childInode := new byte[INODE_RECORD](_ => 0);
      var ok := ReadInode(ino, childInode);
      size := if ok then InodeSize(childInode[..]) else 0;
    }
  }

  /** A sort by the listing's comparator; ties may fall in any order. */
  method SortEntries(xs: seq<FsFileEntry>) returns (ys: seq<FsFileEntry>)
    ensures SortedEntries(ys) && multiset(ys) == multiset(xs)
  {
    ys := [];
    for n := 0 to |xs|
      invariant SortedEntries(ys) && multiset(ys) == multiset(xs[..n])
    {
      assert xs[..n + 1] == xs[..n] + [xs[n]];
      ys := InsertEntry(ys, xs[n]);
    }
    assert xs[..|xs|] == xs;
  }

  method InsertEntry(ys: seq<FsFileEntry>, x: FsFileEntry) returns (zs: seq<FsFileEntry>)
    requires SortedEntries(ys)
    ensures SortedEntries(zs) && multiset(zs) == multiset(ys) + multiset{x}
  {
    var i := 0;
    while i < |ys| && !EntryLess(x, ys[i])
      invariant i <= |ys|
      invariant forall j :: 0 <= j < i ==> !EntryLess(x, ys[j])
    {
      i := i + 1;
    }
    assert ys == ys[..i] + ys[i..];
    zs := ys[..i] + [x] + ys[i..];
    InsertedSorted(ys, x, i);
  }

  lemma InsertedSorted(ys: seq<FsFileEntry>, x: FsFileEntry, i: nat)
    requires SortedEntries(ys) && i <= |ys| && (forall j :: 0 <= j < i ==> !EntryLess(x, ys[j]))
    requires i < |ys| ==> EntryLess(x, ys[i])
    ensures SortedEntries(ys[..i] + [x] + ys[i..])
  {
    hide EntryLess;
    forall j | i <= j < |ys| ensures !EntryLess(ys[j], x) {
      EntryOrder(x, ys[i], ys[j]);
      EntryOrder(ys[i], x, ys[j]);
    }
  }

  lemma NoBlockBehind(v: DeviceView, block: nat)
    requires ValidView(v)
    ensures DiskOf(v).Read(block) == Block(v, block)
    ensures Block(v, block).Some? ==> Splice(Zeros(v.blockSize), 0, Block(v, block).value) == Block(v, block).value
  {
  }

  lemma AddressableBlocks(g: Geometry)
    requires Addressable(g)
    ensures g.blockSize > 0 && g.blockSize % 4 == 0
  {
    var k: nat :| k < 22 && g.blockSize == BlockSizeOf(k);
    TimesFour(Pow2(k));
  }

  lemma TimesFour(x: nat)
    requires x > 0
    ensures 1024 * x > 0 && 1024 * x % 4 == 0
  {
    assert 1024 * x == 4 * (256 * x);
  }

  lemma RangesAppend(a: seq<Extent>, b: seq<Extent>)
    ensures Ranges(a + b) == Ranges(a) + Ranges(b)
  {
  }

  lemma RangesNext(kids: seq<ExtentTree>, i: nat)
    requires i < |kids|
    ensures Ranges(InOrderAll(kids[..i + 1])) == Ranges(InOrderAll(kids[..i])) + Ranges(InOrder(kids[i]))
  {
    assert kids[..i + 1] == kids[..i] + [kids[i]];
    InOrderAppend(kids[..i], [kids[i]]);
    assert InOrderAll([kids[i]]) == InOrder(kids[i]) + InOrderAll([]);
    RangesAppend(InOrderAll(kids[..i]), InOrder(kids[i]));
  }

  /** What is copied so far plus what is still to come is the whole. */
  ghost predicate Remaining(whole: Option<seq<byte>>, done: seq<byte>, rest: Option<seq<byte>>) {
    match rest
    case None => whole == None
    case Some(r) => whole == Some(done + r)
  }

  /** Consecutive physical blocks. */
  function BlockRun(start: nat, count: nat): seq<nat> {
    seq(count, k requires 0 <= k => start + k)
  }

  lemma PhysFromStart(ranges: seq<(nat, nat)>, r: nat)
    requires r < |ranges|
    ensures PhysBlocks(ranges[r..]) == BlockRun(ranges[r].0, ranges[r].1) + PhysBlocks(ranges[r + 1..])
  {
    assert ranges[r..][1..] == ranges[r + 1..];
  }

  lemma TakeStep(d: Disk, start: nat, count: nat, tail: seq<nat>, left: nat)
    requires d.Valid() && count > 0 && left > 0
    ensures TakeBlocks(d, BlockRun(start, count) + tail, left)
         == match d.Read(start)
            case None => None
            case Some(b) =>
              var n := Min(left, d.blockSize);
              match TakeBlocks(d, BlockRun(start + 1, count - 1) + tail, left - n)
              case None => None
              case Some(rest) => Some(b[..n] + rest)
  {
    RunHead(start, count, tail);
    hide BlockRun;
  }

  lemma RunHead(start: nat, count: nat, tail: seq<nat>)
    requires count > 0
    ensures var phys := BlockRun(start, count) + tail;
            phys != [] && phys[0] == start && phys[1..] == BlockRun(start + 1, count - 1) + tail
  {
  }

  /** A run that is used up, or a size that is reached, leaves what the tail still gives. */
  lemma RunEnds(d: Disk, start: nat, count: nat, tail: seq<nat>, left: nat)
    requires d.Valid() && (count == 0 || left == 0)
    ensures TakeBlocks(d, BlockRun(start, count) + tail, left) == TakeBlocks(d, tail, left)
  {
    if count == 0 {
      assert BlockRun(start, count) + tail == tail;
    }
  }

  lemma RemainingJoin(whole: Option<seq<byte>>, done: seq<byte>, part: seq<byte>, rest: Option<seq<byte>>)
    requires rest.Some? ==> Remaining(whole, done, Some(part + rest.value))
    requires rest == None ==> whole == None
    ensures Remaining(whole, done + part, rest)
  {
    if rest.Some? {
      Assoc(done, part, rest.value);
    }
  }

  lemma InOrderOfIndex(t: ExtentTree)
    requires t.Index?
    ensures InOrder(t) == InOrderAll(t.kids)
  {
  }

  lemma WalkStep(g: Geometry, d: Disk, ino: nat, item: seq<byte>, items: seq<seq<byte>>)
    requires Mounted(g, d) && Walk(g, d, ino, [item] + items).Ok?
    ensures FindChild(g, d, ino, item).Ok?
    ensures Walk(g, d, ino, [item] + items)
         == if FindChild(g, d, ino, item).value == 0 then Ok(0)
            else Walk(g, d, FindChild(g, d, ino, item).value, items)
  {
    assert ([item] + items)[1..] == items;
  }

  /** The collected prefix and the entries still to come make the whole listing. */
  ghost predicate CollectsTo(g: Geometry, d: Disk, path: seq<byte>, whole: seq<FsFileEntry>,
                             done: seq<FsFileEntry>, es: seq<DirEntry>)
    requires Mounted(g, d)
  {
    Collect(g, d, path, es).Ok? && whole == done + Collect(g, d, path, es).value
  }

  lemma CollectStep(g: Geometry, d: Disk, path: seq<byte>, whole: seq<FsFileEntry>,
                    done: seq<FsFileEntry>, e: DirEntry, es: seq<DirEntry>)
    requires Mounted(g, d) && CollectsTo(g, d, path, whole, done, [e] + es)
    ensures CollectsTo(g, d, path, whole,
                       if e.inode == 0 || Hidden(e.name) then done else done + [FileEntry(g, d, path, e)], es)
  {
    assert ([e] + es)[1..] == es;
    var rest := Collect(g, d, path, es).value;
    Assoc(done, [FileEntry(g, d, path, e)], rest);
    assert [] + rest == rest;
  }

  lemma LookupEnds(data: seq<byte>, at: nat, name: seq<byte>)
    requires at + DIR_ENTRY_HEADER > |data| || LE16(data, at + 4) == 0
    ensures Lookup(DirEntries(data, at), name) == Ok(0)
  {
  }

  lemma LookupStep(e: DirEntry, es: seq<DirEntry>, name: seq<byte>)
    ensures Lookup([e] + es, name)
         == if e.inode == 0 || e.nameLen != |name| then Lookup(es, name)
            else if !e.fits then Stuck
            else if e.name == name then Ok(e.inode)
            else Lookup(es, name)
  {
    assert ([e] + es)[1..] == es;
  }
}
