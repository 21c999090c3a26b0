/** A small ext4 image, written block by block: one group, a root directory in one block and a file in
    another. Every part of the reader meets here: superblock, descriptor, inode, extent, directory and path. */
module Ext4Image {
  import opened Bytes
  import opened SparseImage
  import opened BlockDevice
  import opened SparseRoundTrip
  import opened Ext4Layout
  import opened Ext4Files
  import opened Ext4Contents
  import opened Ext4Paths
  import opened Ext4Directories
  import opened Ext4Records

  const BLOCK: nat := 1024
  const TABLE_BLOCK: nat := 3
  const ROOT_BLOCK: nat := 4
  const FILE_BLOCK: nat := 5
  const FILE_INO: nat := 3
  const GEOMETRY: Geometry := Geometry(1024, 8, 128, 32, false)
  const ROOT_EXTENT: Extent := Extent(0, 1, true, ROOT_BLOCK)
  const FILE_EXTENT: Extent := Extent(0, 1, true, FILE_BLOCK)

  function ImageSuperblock(): (s: Superblock)
    ensures s.Encodable()
  {
    Superblock(Zeros(24), 0, Zeros(12), 8, Zeros(12), EXT4_MAGIC, Zeros(30), 128, Zeros(6), 0, Zeros(154), 0)
  }

  function ImageDescriptor(): (t: Descriptor)
    ensures t.Encodable(false)
  {
    Descriptor(Zeros(8), TABLE_BLOCK, Zeros(20), [], [])
  }

  /** An inode with one extent. */
  function InodeOn(e: Extent, size: nat): (x: InodeRecord)
    requires EncodableExtent(e) && size <= BLOCK
    ensures x.Encodable() && x.size == size
  {
    InodeRecord(Zeros(4), size, Zeros(32), NodeHeader(1, 0) + EncodeExtent(e) + Zeros(36), Zeros(8))
  }

  function RootInode(size: nat): (x: InodeRecord)
    requires size <= BLOCK
    ensures x.Encodable() && x.size == size
  {
    InodeOn(ROOT_EXTENT, size)
  }

  function FileInode(size: nat): (x: InodeRecord)
    requires size <= BLOCK
    ensures x.Encodable() && x.size == size
  {
    InodeOn(FILE_EXTENT, size)
  }

  /** A record at the start of an otherwise empty block. */
  function BlockWith(x: seq<byte>): (b: seq<byte>)
    requires |x| <= BLOCK
    ensures |b| == BLOCK && Holds(b, 0, x)
  {
    x + Zeros(BLOCK - |x|)
  }

  /** The inode table: inode 2 in slot 1 and inode 3 in slot 2. */
  function TableWith(x: InodeRecord, y: InodeRecord): (b: seq<byte>)
    requires x.Encodable() && y.Encodable()
    ensures |b| == BLOCK && Holds(b, 128, EncodeInode(x)) && Holds(b, 256, EncodeInode(y))
  {
    var left, right := EncodeInode(x), EncodeInode(y);
    var b := Zeros(128) + left + Zeros(16) + right + Zeros(656);
    assert b[128..128 + |left|] == left && b[256..256 + |right|] == right;
    b
  }

  /** The root directory's records fit one block. */
  predicate FitsBlock(rs: seq<DirRecord>) {
    AllWritable(rs) && |EncodeDirectory(rs)| <= BLOCK
  }

  /** The image with the given root inode and root block, file inode and file block. */
  function ImageWith(x: InodeRecord, data: seq<byte>, y: InodeRecord, content: seq<byte>): (d: Disk)
    requires x.Encodable() && y.Encodable() && |data| <= BLOCK && |content| <= BLOCK
    ensures d.Valid() && d.blockSize == BLOCK && |d.blocks| == 6 && AllReadable(d)
  {
    Disk(BLOCK, [
           Some(Zeros(BLOCK)),
           Some(BlockWith(EncodeSuperblock(ImageSuperblock()))),
           Some(BlockWith(EncodeDescriptor(ImageDescriptor(), false))),
           Some(TableWith(x, y)),
           Some(BlockWith(data)),
           Some(BlockWith(content))])
  }

  /** The image with the records rs in its root directory and the content in its file. */
  function ImageOf(rs: seq<DirRecord>, content: seq<byte>): (d: Disk)
    requires FitsBlock(rs) && |content| <= BLOCK
    ensures d.Valid() && d.blockSize == BLOCK && |d.blocks| == 6 && AllReadable(d)
  {
    ImageWith(RootInode(|EncodeDirectory(rs)|), EncodeDirectory(rs), FileInode(|content|), content)
  }

  lemma ImageMounts(x: InodeRecord, data: seq<byte>, y: InodeRecord, content: seq<byte>)
    requires x.Encodable() && y.Encodable() && |data| <= BLOCK && |content| <= BLOCK
    ensures var d := ImageWith(x, data, y, content); Mount(d) == Some(GEOMETRY) && Mounted(GEOMETRY, d)
  {
    hide EncodeSuperblock, ParseSuperblock, EncodeDescriptor, TableWith, BlockWith;
    SuperblockRoundTrip(ImageSuperblock());
    assert BlockSizeOf(0) == 1024;
  }

  /** Descriptor and inode records stand where they are looked for. */
  lemma ImageRecords(x: InodeRecord, data: seq<byte>, y: InodeRecord, content: seq<byte>)
    requires x.Encodable() && y.Encodable() && |data| <= BLOCK && |content| <= BLOCK
    ensures var d := ImageWith(x, data, y, content);
            Recorded(GEOMETRY, d, EXT4_ROOT_INO, ImageDescriptor(), x)
            && Recorded(GEOMETRY, d, FILE_INO, ImageDescriptor(), y)
  {
    var d := ImageWith(x, data, y, content);
    hide EncodeSuperblock, EncodeDescriptor, EncodeInode, TableWith, BlockWith, Flat;
    HeldOnDisk(d, 2, 0, EncodeDescriptor(ImageDescriptor(), false));
    HeldOnDisk(d, TABLE_BLOCK, 128, EncodeInode(x));
    HeldOnDisk(d, TABLE_BLOCK, 256, EncodeInode(y));
    DivMod(1, 8, 0, 1);
    DivMod(2, 8, 0, 2);
  }

  lemma OneExtentNode(d: Disk, e: Extent, size: nat)
    requires EncodableExtent(e) && size <= BLOCK
    ensures WrittenAt(d, InodeOn(e, size).block, Extents([e]))
  {
    var node := InodeOn(e, size).block;
    var entries := seq(1, i requires 0 <= i < 1 => EncodeExtent([e][i]));
    assert entries == [EncodeExtent(e)];
    hide NodeHeader, EncodeExtent;
    assert node[..NODE_HEADER] == NodeHeader(1, 0);
    assert node[EntryPos(0)..EntryPos(0) + NODE_ENTRY] == EncodeExtent(e);
  }

  lemma OneExtentBlocks(e: Extent, size: nat)
    requires e == Extent(0, 1, true, e.start) && size <= BLOCK
    ensures HoleFree([e], 0, Needed(size, BLOCK)) && PhysBlocks(Ranges([e])) == [e.start]
  {
    assert Ranges([e]) == [(e.start, 1)];
    assert PhysBlocks([]) == [] && [(e.start, 1)][1..] == [];
    assert seq(1, k requires 0 <= k => e.start + k) == [e.start];
    if size > 0 {
      assert Needed(0, BLOCK) == 0;
      assert [e][1..] == [];
    }
  }

  /** The content one extent defines is what stands in its block. */
  lemma OneExtentContent(d: Disk, e: Extent, data: seq<byte>)
    requires d.Valid() && d.blockSize == BLOCK && AllReadable(d) && |data| <= BLOCK
    requires e == Extent(0, 1, true, e.start) && e.start < |d.blocks| && Holds(d.blocks[e.start].value, 0, data)
    ensures Content(d, [e], |data|) == data
  {
    var b := d.blocks[e.start].value;
    forall i | 0 <= i < |data| ensures ContentByte(d, [e], i) == data[i] {
      DivMod(i, BLOCK, 0, i);
      assert b[0..|data|][i] == b[i];
    }
    assert Content(d, [e], |data|) == data;
  }

  lemma OneExtentTree(d: Disk, e: Extent)
    ensures Reached(d, Extents([e])) == [e]
  {
  }

  lemma BlockReadable(d: Disk, p: nat, size: nat)
    requires d.blockSize > 0 && AllReadable(d) && p < |d.blocks|
    ensures NeededReadable(d, [p], size)
  {
  }

  /** An inode of the image with its data in one block reads as that data. */
  lemma OneExtentFile(d: Disk, ino: nat, e: Extent, data: seq<byte>)
    requires Mounted(GEOMETRY, d) && |data| <= BLOCK && EncodableExtent(e) && e == Extent(0, 1, true, e.start)
    requires d.blockSize == BLOCK && AllReadable(d) && e.start < |d.blocks| && d.blocks[e.start].Some?
    requires Holds(d.blocks[e.start].value, 0, data)
    requires Recorded(GEOMETRY, d, ino, ImageDescriptor(), InodeOn(e, |data|))
    ensures FileOf(GEOMETRY, d, ino) == Ok(data)
  {
    assert GEOMETRY.blockSize == BLOCK > 0 && ImageDescriptor().table != 0 && d.Valid();
    hide *;
    var x := InodeOn(e, |data|);
    OneExtentNode(d, e, x.size);
    OneExtentBlocks(e, x.size);
    OneExtentTree(d, e);
    BlockReadable(d, e.start, x.size);
    FileOnDiskIsRead(GEOMETRY, d, ino, ImageDescriptor(), x, Extents([e]));
    OneExtentContent(d, e, data);
  }

  /** The root of the image reads as the directory written into it, and its file as the content. */
  lemma ImageFiles(rs: seq<DirRecord>, content: seq<byte>)
    requires FitsBlock(rs) && |content| <= BLOCK && Mounted(GEOMETRY, ImageOf(rs, content))
    ensures FileOf(GEOMETRY, ImageOf(rs, content), EXT4_ROOT_INO) == Ok(EncodeDirectory(rs))
    ensures FileOf(GEOMETRY, ImageOf(rs, content), FILE_INO) == Ok(content)
  {
    var data, d := EncodeDirectory(rs), ImageOf(rs, content);
    assert Holds(d.blocks[ROOT_BLOCK].value, 0, data) && Holds(d.blocks[FILE_BLOCK].value, 0, content);
    ImageRecords(RootInode(|data|), data, FileInode(|content|), content);
    hide Mounted, Recorded, FileOf, EncodeDirectory, EncodeExtent, NodeHeader, Holds, ImageWith;
    OneExtentFile(d, EXT4_ROOT_INO, ROOT_EXTENT, data);
    OneExtentFile(d, FILE_INO, FILE_EXTENT, content);
  }

  /** End to end: the image mounts, and for any records that fit one block with distinct names, "/name"
      resolves to an inode exactly when a live record gives it, opens that inode or nothing, and "/" lists
      exactly the visible records. */
  lemma ImageResolves(rs: seq<DirRecord>, content: seq<byte>, name: seq<byte>, ino: nat)
    requires FitsBlock(rs) && |content| <= BLOCK && DistinctNames(rs) && PlainName(name)
    ensures var d := ImageOf(rs, content);
            && Mount(d) == Some(GEOMETRY) && Mounted(GEOMETRY, d)
            && (Resolve(GEOMETRY, d, [SLASH] + name) == Ok(ino) <==> Names(rs, name, ino))
            && (Names(rs, name, 0) ==> ReadPath(GEOMETRY, d, [SLASH] + name) == Fail)
            && ListsExactly(GEOMETRY, d, [SLASH], rs)
  {
    ImageRooted(rs, content);
    hide *;
    var d := ImageOf(rs, content);
    FitsInBlock(rs);
    WrittenDirectoryResolves(GEOMETRY, d, [], rs, name, ino);
    if Names(rs, name, 0) {
      PathIsInode(GEOMETRY, d, [], rs, name, 0);
    }
    BelowRoot(name);
    WrittenDirectoryLists(GEOMETRY, d, [SLASH], rs);
  }

  lemma ImageRooted(rs: seq<DirRecord>, content: seq<byte>)
    requires FitsBlock(rs) && |content| <= BLOCK
    ensures var d := ImageOf(rs, content);
            && Mount(d) == Some(GEOMETRY) && Mounted(GEOMETRY, d)
            && Resolve(GEOMETRY, d, []) == Ok(EXT4_ROOT_INO) == Resolve(GEOMETRY, d, [SLASH]) && EXT4_ROOT_INO != 0
            && FileOf(GEOMETRY, d, EXT4_ROOT_INO) == Ok(EncodeDirectory(rs))
            && FileOf(GEOMETRY, d, FILE_INO) == Ok(content)
  {
    hide EncodeDirectory, InodeOn, Mount, Mounted, ImageWith, FileOf, Resolve;
    ImageMounts(RootInode(|EncodeDirectory(rs)|), EncodeDirectory(rs), FileInode(|content|), content);
    ImageFiles(rs, content);
    RootResolves(GEOMETRY, ImageOf(rs, content));
  }

  /** From the path to the bytes on one whole image: when a live record names the file's inode, reading
      "/name" gives exactly the content, and every entry that lists the inode shows the content's length. */
  lemma ImageReads(rs: seq<DirRecord>, content: seq<byte>, name: seq<byte>)
    requires FitsBlock(rs) && |content| <= BLOCK && DistinctNames(rs) && PlainName(name) && Names(rs, name, FILE_INO)
    ensures Mounted(GEOMETRY, ImageOf(rs, content))
    ensures ReadPath(GEOMETRY, ImageOf(rs, content), [SLASH] + name) == Ok(content)
    ensures var l := Listing(GEOMETRY, ImageOf(rs, content), [SLASH]);
            l.Ok? && forall x :: x in l.value && x.inode == FILE_INO ==> x.size == |content|
  {
    ImageRooted(rs, content);
    var data, d := EncodeDirectory(rs), ImageOf(rs, content);
    assert FILE_INO != 0 && ImageDescriptor().table != 0;
    ImageRecords(RootInode(|data|), data, FileInode(|content|), content);
    hide *;
    FitsInBlock(rs);
    PathIsInode(GEOMETRY, d, [], rs, name, FILE_INO);
    BelowRoot(name);
    WrittenDirectoryLists(GEOMETRY, d, [SLASH], rs);
    ListedSize(d, [SLASH], rs, FILE_INO, FileInode(|content|));
  }

  lemma ListedSize(d: Disk, p: seq<byte>, rs: seq<DirRecord>, ino: nat, y: InodeRecord)
    requires Mounted(GEOMETRY, d) && ListsExactly(GEOMETRY, d, p, rs)
    requires Recorded(GEOMETRY, d, ino, ImageDescriptor(), y) && ImageDescriptor().table != 0
    ensures forall x :: x in Listing(GEOMETRY, d, p).value && x.inode == ino ==> x.size == y.size
  {
    SizeShown(GEOMETRY, d, ino, ImageDescriptor(), y);
    hide Mounted, Recorded, Listing, Visible, Inode, InodeSize;
    var l := Listing(GEOMETRY, d, p).value;
    forall x | x in l && x.inode == ino ensures x.size == y.size {
      var i :| 0 <= i < |l| && l[i] == x;
      assert Shows(GEOMETRY, d, p, Visible(rs)[i], l[i]);
    }
  }

  lemma FitsInBlock(rs: seq<DirRecord>)
    requires FitsBlock(rs)
    ensures AllWritable(rs) && |EncodeDirectory(rs)| <= BLOCK
  {
  }

  lemma BelowRoot(name: seq<byte>)
    ensures [] + [SLASH] + name == [SLASH] + name
  {
  }

  /** The image's blocks. */
  function ImageBlocks(rs: seq<DirRecord>, content: seq<byte>): (bs: seq<seq<byte>>)
    requires FitsBlock(rs) && |content| <= BLOCK
    ensures |bs| == 6 && AllSized(bs, BLOCK)
  {
    var blocks := ImageOf(rs, content).blocks;
    seq(6, i requires 0 <= i < 6 => blocks[i].value)
  }

  /** ... packed as one RAW chunk of a sparse file. */
  function Packed(rs: seq<DirRecord>, content: seq<byte>): (cs: seq<Chunk>)
    requires FitsBlock(rs) && |content| <= BLOCK
    ensures |cs| == 1 && AllEncodable(cs, BLOCK)
  {
    ConcatLength(ImageBlocks(rs, content), BLOCK);
    [RawData(ImageBlocks(rs, content))]
  }

  /** From the sparse file to the file tree: the packed image opens to the very disk above, so what
      holds of mounting, resolving, reading and listing it holds of the sparse file. */
  lemma PackedImageOpens(rs: seq<DirRecord>, content: seq<byte>)
    requires FitsBlock(rs) && |content| <= BLOCK
    ensures var v := OpenSparse(Encode(Packed(rs, content), BLOCK, 6));
            v.Some? && ValidView(v.value) && DiskOf(v.value) == ImageOf(rs, content)
  {
    var cs, bs := Packed(rs, content), ImageBlocks(rs, content);
    ConcatLength(bs, BLOCK);
    assert AllBlocks(cs, BLOCK) == bs by {
      assert cs[1..] == [] && AllBlocks([], BLOCK) == [];
      assert bs + [] == bs;
    }
    hide Encode, Packed, OpenSparse, ImageOf, Concat, ReadInto, Block;
    SparseIsRaw(cs, BLOCK, 6);
    RawImage(rs, content);
  }

  /** The raw device on the plain image shows the disk above. */
  lemma RawImage(rs: seq<DirRecord>, content: seq<byte>)
    requires FitsBlock(rs) && |content| <= BLOCK
    ensures DiskOf(RawView(Concat(ImageBlocks(rs, content)), BLOCK, 6)) == ImageOf(rs, content)
  {
    var bs, v := ImageBlocks(rs, content), RawView(Concat(ImageBlocks(rs, content)), BLOCK, 6);
    ConcatLength(bs, BLOCK);
    hide Concat, Block, EncodeDirectory, TableWith, EncodeSuperblock, EncodeDescriptor, BlockWith, InodeOn;
    forall b: nat | b < 6 ensures Block(v, b) == ImageOf(rs, content).blocks[b] {
      RawReadIsImage(bs, BLOCK, 6, b);
      assert ImageOf(rs, content).blocks[b].Some?;
    }
    assert DiskOf(v).blocks == ImageOf(rs, content).blocks;
  }

  // ---------------------------------------------------------------------------
  // The records, byte by byte
  // ---------------------------------------------------------------------------

  lemma SuperblockBytes()
    ensures var e := EncodeSuperblock(ImageSuperblock());
            && e[24..28] == [0, 0, 0, 0] && e[40..44] == [8, 0, 0, 0] && e[56..58] == [0x53, 0xEF]
            && e[88..90] == [128, 0] && e[96..100] == [0, 0, 0, 0]
  {
    SuperblockParts(ImageSuperblock());
    assert Put32(8) == [8, 0, 0, 0] && Put32(0) == [0, 0, 0, 0];
    assert Put16(EXT4_MAGIC) == [0x53, 0xEF] && Put16(128) == [128, 0];
    hide EncodeSuperblock, Put16, Put32;
  }

  /** A leaf with one extent, an extent that is not initialised, an index node, and a directory record. */
  lemma NodeBytes()
    ensures NodeHeader(1, 0) == [0x0A, 0xF3, 1, 0, 1, 0, 0, 0, 0, 0, 0, 0]
    ensures EncodeExtent(Extent(7, 1, true, 0x2_0000_0005)) == [7, 0, 0, 0, 1, 0, 2, 0, 5, 0, 0, 0]
    ensures EncodeExtent(Extent(7, 1, false, 5)) == [7, 0, 0, 0, 1, 0x80, 0, 0, 5, 0, 0, 0]
    ensures EncodeIdx(7, 0x2_0000_0005) == [7, 0, 0, 0, 5, 0, 0, 0, 2, 0, 0, 0]
    ensures EncodeRecord(DirRecord(3, 1, [97], 3)) == [3, 0, 0, 0, 12, 0, 1, 1, 97, 0, 0, 0]
  {
    assert Put16(EXT4_EXTENTS_MAGIC) == [0x0A, 0xF3] && Put16(0) == [0, 0] && Put16(1) == [1, 0];
    assert Put16(2) == [2, 0] && Put16(1 + INIT_MAX_LEN) == [1, 0x80] && Put16(12) == [12, 0];
    assert Put32(0) == [0, 0, 0, 0] && Put32(3) == [3, 0, 0, 0] && Put32(5) == [5, 0, 0, 0];
    assert Put32(7) == [7, 0, 0, 0];
    hide Put16, Put32;
  }

  // ---------------------------------------------------------------------------
  // A lost node
  // ---------------------------------------------------------------------------

  const LOST_BLOCK: nat := 6
  const LOST_TREE: Layout := Nodes(1, [Placed(0, LOST_BLOCK, Extents([ROOT_EXTENT]))])

  /** An inode whose extent stands in a leaf node behind the end of the image. */
  function LostInode(size: nat): (x: InodeRecord)
    requires size <= BLOCK
    ensures x.Encodable() && x.size == size
  {
    InodeRecord(Zeros(4), size, Zeros(32), NodeHeader(1, 1) + EncodeIdx(0, LOST_BLOCK) + Zeros(36), Zeros(8))
  }

  lemma LostNode(d: Disk, size: nat)
    requires size <= BLOCK && d.Read(LOST_BLOCK) == None
    ensures WrittenAt(d, LostInode(size).block, LOST_TREE)
    ensures Reached(d, LOST_TREE) == [] && AllExtents(LOST_TREE) == [ROOT_EXTENT]
  {
    var node, ps := LostInode(size).block, LOST_TREE.placed;
    var entries := seq(1, i requires 0 <= i < 1 => EncodeIdx(ps[i].logical, ps[i].block));
    assert entries == [EncodeIdx(0, LOST_BLOCK)];
    assert AllPlaced(ps) == [ROOT_EXTENT] by {
      assert ps[1..] == [] && AllPlaced([]) == [];
      assert PlacedExtents(ps[0]) == [ROOT_EXTENT];
    }
    assert TreeOf(d, LOST_TREE).kids == [Unread] && InOrderAll([Unread]) == InOrder(Unread) + InOrderAll([]);
    hide NodeHeader, EncodeIdx;
    assert node[..NODE_HEADER] == NodeHeader(1, 1);
    assert node[EntryPos(0)..EntryPos(0) + NODE_ENTRY] == EncodeIdx(0, LOST_BLOCK);
  }

  /** The image whose root inode lost its node. */
  function LostImage(data: seq<byte>): (d: Disk)
    requires |data| <= BLOCK
    ensures d.Valid() && d.blockSize == BLOCK && |d.blocks| == 6 && AllReadable(d)
    ensures Holds(d.blocks[ROOT_BLOCK].value, 0, data)
  {
    ImageWith(LostInode(|data|), data, FileInode(0), [])
  }

  /** On this image every file in the root block, however long, reads as a success without a byte. */
  lemma LostNodeIsSuccess(data: seq<byte>)
    requires |data| <= BLOCK
    ensures var d := LostImage(data);
            && Mount(d) == Some(GEOMETRY) && Mounted(GEOMETRY, d)
            && Content(d, AllExtents(LOST_TREE), |data|) == data
            && FileOf(GEOMETRY, d, EXT4_ROOT_INO) == Ok([])
  {
    var d, x := LostImage(data), LostInode(|data|);
    assert d.Read(LOST_BLOCK) == None && ImageDescriptor().table != 0;
    assert PhysBlocks(Ranges([])) == [] && TakeBlocks(d, [], |data|) == Some([]) by {
      assert Ranges([]) == [];
    }
    ImageMounts(x, data, FileInode(0), []);
    ImageRecords(x, data, FileInode(0), []);
    hide Mount, Mounted, Recorded, Content, FileOf, EncodeInode, LostInode, ImageWith, TakeBlocks;
    RecordIsRead(GEOMETRY, d, EXT4_ROOT_INO, ImageDescriptor(), x);
    InodeRoundTrip(x);
    LostNode(d, |data|);
    OneExtentContent(d, ROOT_EXTENT, data);
    WrittenExtents(GEOMETRY, d, EXT4_ROOT_INO, LOST_TREE);
  }
}
