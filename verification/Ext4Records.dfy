/** The on-disk records written field by field in the order of their C structs, and the proof that the
    reader takes every field it uses from the right place. */
module Ext4Records {
  import opened Bytes
  import opened SparseImage
  import opened Ext4Layout
  import opened Ext4Files
  import opened Ext4Contents
  import opened Ext4Paths

  // ---------------------------------------------------------------------------
  // Superblock
  // ---------------------------------------------------------------------------

  /** The fields the reader uses; runs of fields it does not use are kept as bytes. */
  datatype Superblock = Superblock(
    counts: seq<byte>,       // s_inodes_count .. s_first_data_block
    logBlockSize: nat,
    grouping: seq<byte>,     // s_log_cluster_size .. s_clusters_per_group
    inodesPerGroup: nat,
    times: seq<byte>,        // s_mtime .. s_max_mnt_count
    magic: nat,
    state: seq<byte>,        // s_state .. s_first_ino
    inodeSize: nat,
    compat: seq<byte>,       // s_block_group_nr, s_feature_compat
    incompat: nat,
    names: seq<byte>,        // s_feature_ro_compat .. s_jnl_backup_type
    descSize: nat)
  {
    predicate Encodable() {
      && |counts| == 6 * 4 && logBlockSize < TWO_32 && |grouping| == 3 * 4 && inodesPerGroup < TWO_32
      && |times| == 2 * 4 + 2 * 2 && magic < TWO_16 && |state| == 3 * 2 + 4 * 4 + 2 * 2 + 4
      && inodeSize < TWO_16 && |compat| == 2 + 4 && incompat < TWO_32
      && |names| == 4 + 16 + 16 + 64 + 4 + 2 * 1 + 2 + 16 + 3 * 4 + 4 * 4 + 2 * 1 && descSize < TWO_16
    }

    /** Bit 7 of the incompatible features. */
    predicate Is64Bit() {
      incompat / 0x80 % 2 == 1
    }
  }

  function EncodeSuperblock(s: Superblock): (r: seq<byte>)
    requires s.Encodable()
    ensures |r| == SUPERBLOCK_SIZE
  {
    s.counts + Put32(s.logBlockSize) + s.grouping + Put32(s.inodesPerGroup) + s.times + Put16(s.magic)
    + s.state + Put16(s.inodeSize) + s.compat + Put32(s.incompat) + s.names + Put16(s.descSize)
  }

  lemma SuperblockParts(s: Superblock)
    requires s.Encodable()
    ensures var e := EncodeSuperblock(s);
            && e[24..28] == Put32(s.logBlockSize) && e[40..44] == Put32(s.inodesPerGroup)
            && e[56..58] == Put16(s.magic) && e[88..90] == Put16(s.inodeSize)
            && e[96..100] == Put32(s.incompat) && e[254..256] == Put16(s.descSize)
  {
    hide Put16, Put32;
  }

  /** Every superblock is taken for exactly the geometry its fields declare; another magic is refused. */
  lemma SuperblockRoundTrip(s: Superblock)
    requires s.Encodable()
    ensures ParseSuperblock(EncodeSuperblock(s))
         == if s.magic != EXT4_MAGIC then None
            else Some(Geometry(
                        BlockSizeOf(s.logBlockSize), s.inodesPerGroup,
                        if s.inodeSize == 0 then 128 else s.inodeSize,
                        if !s.Is64Bit() then 32 else if s.descSize == 0 then 64 else s.descSize, s.Is64Bit()))
  {
    var e := EncodeSuperblock(s);
    SuperblockParts(s);
    hide EncodeSuperblock, Put16, Put32, LE16, LE32, BlockSizeOf;
    Field32(e, 24, s.logBlockSize);
    Field32(e, 40, s.inodesPerGroup);
    Field16(e, 56, s.magic);
    Field16(e, 88, s.inodeSize);
    Field32(e, 96, s.incompat);
    Field16(e, 254, s.descSize);
  }

  // ---------------------------------------------------------------------------
  // Group descriptors
  // ---------------------------------------------------------------------------

  /** A group descriptor; the second half exists with the 64-bit feature only. */
  datatype Descriptor = Descriptor(
    bitmaps: seq<byte>,      // bg_block_bitmap_lo, bg_inode_bitmap_lo
    table: nat,
    counts: seq<byte>,       // bg_free_blocks_count_lo .. bg_checksum
    bitmapsHigh: seq<byte>,  // bg_block_bitmap_hi, bg_inode_bitmap_hi
    countsHigh: seq<byte>)   // bg_free_blocks_count_hi .. bg_reserved
  {
    predicate Encodable(is64: bool) {
      && |bitmaps| == 2 * 4 && |counts| == 4 * 2 + 4 + 4 * 2
      && (if is64 then table < TWO_64 && |bitmapsHigh| == 2 * 4 && |countsHigh| == 4 * 2 + 4 + 2 * 2 + 4
          else table < TWO_32)
    }
  }

  function EncodeDescriptor(x: Descriptor, is64: bool): (r: seq<byte>)
    requires x.Encodable(is64)
    ensures |r| == if is64 then 64 else 32
  {
    var low := x.bitmaps + Put32(x.table % TWO_32) + x.counts;
    if is64 then low + x.bitmapsHigh + Put32(x.table / TWO_32) + x.countsHigh else low
  }

  lemma DescriptorParts(x: Descriptor, is64: bool)
    requires x.Encodable(is64)
    ensures var e := EncodeDescriptor(x, is64);
            e[8..12] == Put32(x.table % TWO_32) && (is64 ==> e[40..44] == Put32(x.table / TWO_32))
  {
    hide Put32;
  }

  /** The table block of a descriptor is read back, all 64 bits of it or its 32. */
  lemma DescriptorRoundTrip(g: Geometry, b: seq<byte>, at: nat, x: Descriptor)
    requires x.Encodable(g.is64Bit) && Holds(b, at, EncodeDescriptor(x, g.is64Bit))
    ensures TableField(g, b, at) == x.table
  {
    var e := EncodeDescriptor(x, g.is64Bit);
    DescriptorParts(x, g.is64Bit);
    hide EncodeDescriptor, Put32, LE32;
    SubSlice(b, at, |e|, 8, 12);
    Field32(b, at + 8, x.table % TWO_32);
    if g.is64Bit {
      SubSlice(b, at, |e|, 40, 44);
      Field32(b, at + 40, x.table / TWO_32);
    }
  }

  // ---------------------------------------------------------------------------
  // Inodes
  // ---------------------------------------------------------------------------

  datatype InodeRecord = InodeRecord(
    mode: seq<byte>,         // i_mode, i_uid
    size: nat,
    times: seq<byte>,        // i_atime .. i_osd1
    block: seq<byte>,
    generation: seq<byte>)   // i_generation, i_file_acl_lo
  {
    predicate Encodable() {
      && |mode| == 2 * 2 && size < TWO_64 && |times| == 4 * 4 + 2 * 2 + 3 * 4 && |block| == 60
      && |generation| == 2 * 4
    }
  }

  function EncodeInode(x: InodeRecord): (r: seq<byte>)
    requires x.Encodable()
    ensures |r| == INODE_RECORD
  {
    x.mode + Put32(x.size % TWO_32) + x.times + x.block + x.generation + Put32(x.size / TWO_32)
  }

  lemma InodeParts(x: InodeRecord)
    requires x.Encodable()
    ensures var e := EncodeInode(x);
            e[4..8] == Put32(x.size % TWO_32) && e[40..100] == x.block && e[108..112] == Put32(x.size / TWO_32)
  {
    hide Put32;
  }

  /** Size and block area of an inode record are read back. */
  lemma InodeRoundTrip(x: InodeRecord)
    requires x.Encodable()
    ensures InodeSize(EncodeInode(x)) == x.size && InodeBlocks(EncodeInode(x)) == x.block
  {
    var e := EncodeInode(x);
    InodeParts(x);
    hide EncodeInode, Put32, LE32;
    Field32(e, 4, x.size % TWO_32);
    Field32(e, 108, x.size / TWO_32);
  }

  // ---------------------------------------------------------------------------
  // Finding a descriptor, an inode and a file by their bytes on the disk
  // ---------------------------------------------------------------------------

  /** Where the descriptor of a group stands: the table starts in the block behind the superblock's. */
  function DescriptorAddress(g: Geometry, group: nat): nat
    requires g.blockSize > 0
  {
    QuotientNat(1024, g.blockSize);
    ProductNat(1024 / g.blockSize + 1, g.blockSize);
    (1024 / g.blockSize + 1) * g.blockSize + group * g.descSize
  }

  /** For every block size a superblock can declare, the table starts in block 2 or 1. */
  lemma DescriptorTableStart(g: Geometry)
    requires Addressable(g)
    ensures g.blockSize > 0 && 1024 / g.blockSize + 1 == if g.blockSize == 1024 then 2 else 1
  {
    var k: nat :| k < 22 && g.blockSize == BlockSizeOf(k);
    if g.blockSize > 1024 {
      DivMod(1024, g.blockSize, 0, 1024);
    }
  }

  /** Whatever the block size and the group, a descriptor written at its address is the one consulted. */
  lemma TableOfGroup(g: Geometry, d: Disk, group: nat, t: Descriptor)
    requires Mounted(g, d) && g.blockSize > 0 && AllReadable(d) && t.Encodable(g.is64Bit)
    requires Holds(Flat(d), DescriptorAddress(g, group), EncodeDescriptor(t, g.is64Bit))
    ensures InodeTable(g, d, group) == t.table
  {
    hide Flat, EncodeDescriptor, TableField, Addressable;
    var bs, e := g.blockSize, EncodeDescriptor(t, g.is64Bit);
    DescriptorTableStart(g);
    SlotFits(g, group);
    var block, at := AddressSplit(if bs == 1024 then 2 else 1, group * g.descSize, bs);
    FlatLength(d);
    BlockBelow(block, at, |d.blocks|, bs);
    FlatSlice(d, block, at, |e|);
    assert Holds(d.blocks[block].value, at, e);
    DescriptorRoundTrip(g, d.blocks[block].value, at, t);
  }

  /** The descriptor of the inode's group and the inode's record stand on the disk where "Finding an
      Inode" says. */
  ghost predicate Recorded(g: Geometry, d: Disk, ino: nat, t: Descriptor, x: InodeRecord) {
    && AllReadable(d) && |d.blocks| < TWO_64 && g.blockSize > 0 && g.inodesPerGroup > 0 && 0 < ino
    && t.Encodable(g.is64Bit) && x.Encodable()
    && (QuotientNat(ino - 1, g.inodesPerGroup);
        Holds(Flat(d), DescriptorAddress(g, (ino - 1) / g.inodesPerGroup), EncodeDescriptor(t, g.is64Bit)))
    && Holds(Flat(d), RecordAddress(g, t.table, (ino - 1) % g.inodesPerGroup), EncodeInode(x))
  }

  /** Slot `index` of the table that starts in block `table`. */
  function RecordAddress(g: Geometry, table: nat, index: nat): nat {
    ProductNat(table, g.blockSize);
    ProductNat(index, g.inodeSize);
    table * g.blockSize + index * g.inodeSize
  }

  /** What stands there is what is read, for every inode of every group; table block 0 stands for no table. */
  lemma RecordIsRead(g: Geometry, d: Disk, ino: nat, t: Descriptor, x: InodeRecord)
    requires Mounted(g, d) && Recorded(g, d, ino, t, x)
    ensures Inode(g, d, ino) == if t.table == 0 then None else Some(EncodeInode(x))
  {
    hide Flat, EncodeDescriptor, EncodeInode, InodeTable, Mounted, DescriptorAddress;
    TableOfGroup(g, d, Group(g, ino), t);
    if t.table != 0 {
      InodeAtAddress(g, d, ino);
    }
  }

  /** A file written into the flat disk, its extent tree hole-free on readable blocks, is read as exactly
      the content its extents define. */
  lemma FileOnDiskIsRead(g: Geometry, d: Disk, ino: nat, t: Descriptor, x: InodeRecord, l: Layout)
    requires Mounted(g, d) && Recorded(g, d, ino, t, x) && t.table != 0
    requires WrittenAt(d, x.block, l) && HoleFree(Reached(d, l), 0, Needed(x.size, g.blockSize))
    requires NeededReadable(d, PhysBlocks(Ranges(Reached(d, l))), x.size)
    ensures FileOf(g, d, ino) == Ok(Content(d, Reached(d, l), x.size))
    ensures OrderedFrom(AllExtents(l), 0) ==> FileOf(g, d, ino) == Ok(Content(d, AllExtents(l), x.size))
  {
    hide Mounted, FileOf, WrittenAt, HoleFree, NeededReadable, PhysBlocks, EncodeInode;
    RecordIsRead(g, d, ino, t, x);
    InodeRoundTrip(x);
    WrittenFileIsRead(g, d, ino, l);
  }
}
