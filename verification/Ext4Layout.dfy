/** Where ext4 keeps things: superblock, group descriptors and inode records, as `ext4_reader.cpp`
    addresses them ("ext4 Data Structures and Algorithms", Finding an Inode). */
module Ext4Layout {
  import opened Bytes
  import opened SparseImage

  const EXT4_MAGIC: nat := 0xEF53
  const SUPERBLOCK_OFFSET: nat := 1024
  const SUPERBLOCK_SIZE: nat := 256
  const INODE_RECORD: nat := 112

  datatype Geometry = Geometry(
    blockSize: nat, inodesPerGroup: nat, inodeSize: nat, descSize: nat, is64Bit: bool)

  function Pow2(n: nat): (r: nat)
    ensures r > 0
  {
    if n == 0 then 1 else 2 * Pow2(n - 1)
  }

  /** `1024u << log` in 32 bits: all bits are gone from log 22 on. From log 32 on C++ leaves the shift
      undefined; 0 is then a convention; no device a superblock was read from has it. */
  function BlockSizeOf(log: nat): nat {
    if log < 22 then 1024 * Pow2(log) else 0
  }

  function ParseSuperblock(sb: seq<byte>): Option<Geometry>
    requires |sb| == SUPERBLOCK_SIZE
  {
    if LE16(sb, 56) != EXT4_MAGIC then None
    else
      var is64 := LE32(sb, 96) / 0x80 % 2 == 1;
      Some(Geometry(
             BlockSizeOf(LE32(sb, 24)), LE32(sb, 40),
             if LE16(sb, 88) != 0 then LE16(sb, 88) else 128,
             if !is64 then 32 else if LE16(sb, 254) != 0 then LE16(sb, 254) else 64, is64))
  }

  /** A whole superblock lies inside one block: block 1 of 1024 bytes, or the tail of block 0. */
  predicate SuperblockFits(blockSize: nat) {
    blockSize == 1024 || blockSize >= SUPERBLOCK_OFFSET + SUPERBLOCK_SIZE
  }

  /** What `init` makes of a disk. */
  function Mount(d: Disk): Option<Geometry>
    requires d.Valid() && SuperblockFits(d.blockSize)
  {
    match d.Read(if d.blockSize == 1024 then 1 else 0)
    case None => None
    case Some(b) =>
      var at := if d.blockSize == 1024 then 0 else SUPERBLOCK_OFFSET;
      ParseSuperblock(b[at..at + SUPERBLOCK_SIZE])
  }

  predicate AllReadable(d: Disk) {
    forall i :: 0 <= i < |d.blocks| ==> d.blocks[i].Some?
  }

  /** The disk as one byte string. */
  function Flat(d: Disk): seq<byte>
    requires AllReadable(d)
  {
    Concat(seq(|d.blocks|, i requires 0 <= i < |d.blocks| => d.blocks[i].value))
  }

  /** A slice of one block is the slice of the flat disk at the block's byte address. */
  lemma FlatSlice(d: Disk, block: nat, at: nat, n: nat)
    requires d.Valid() && AllReadable(d) && block < |d.blocks| && at + n <= d.blockSize
    ensures block * d.blockSize + at + n <= |Flat(d)|
    ensures d.blocks[block].value[at..at + n]
         == Flat(d)[block * d.blockSize + at..block * d.blockSize + at + n]
  {
    hide Concat;
    var xs := seq(|d.blocks|, i requires 0 <= i < |d.blocks| => d.blocks[i].value);
    ConcatBlock(xs, d.blockSize, block);
    SubSlice(Flat(d), block * d.blockSize, d.blockSize, at, at + n);
  }

  /** What stands in a block stands on the flat disk at the block's byte address. */
  lemma HeldOnDisk(d: Disk, block: nat, at: nat, x: seq<byte>)
    requires d.Valid() && AllReadable(d) && block < |d.blocks| && Holds(d.blocks[block].value, at, x)
    ensures Holds(Flat(d), block * d.blockSize + at, x)
  {
    FlatSlice(d, block, at, |x|);
  }

  /** Whatever the block size, the superblock read is bytes 1024..1280 of the disk. */
  lemma SuperblockAddress(d: Disk)
    requires d.Valid() && AllReadable(d) && SuperblockFits(d.blockSize)
    requires |d.blocks| > 1
    ensures SUPERBLOCK_OFFSET + SUPERBLOCK_SIZE <= |Flat(d)|
    ensures Mount(d) == ParseSuperblock(Flat(d)[SUPERBLOCK_OFFSET..SUPERBLOCK_OFFSET + SUPERBLOCK_SIZE])
  {
    if d.blockSize == 1024 {
      FlatSlice(d, 1, 0, SUPERBLOCK_SIZE);
    } else {
      FlatSlice(d, 0, SUPERBLOCK_OFFSET, SUPERBLOCK_SIZE);
    }
  }

  // ---------------------------------------------------------------------------
  // Records never straddle a block: the exact condition
  // ---------------------------------------------------------------------------

  /** Every record of `len` bytes in a table of `size`-byte slots lies inside one block. */
  ghost predicate NeverStraddles(blockSize: nat, size: nat, len: nat)
    requires blockSize > 0
  {
    forall index: nat :: SlotOffset(index, size, blockSize) + len <= blockSize
  }

  /** Where in its block slot `index` of a table starts. */
  function SlotOffset(index: nat, size: nat, blockSize: nat): nat
    requires blockSize > 0
  {
    index * size % blockSize
  }

  lemma DivMod(x: nat, m: nat, q: nat, r: nat)
    requires x == m * q + r && r < m
    ensures x / m == q && x % m == r
  {
    QuotientNat(x, m);
    assert x == m * (x / m) + x % m;
    StepUp(x / m, q, m);
    StepUp(q, x / m, m);
  }

  lemma StepUp(a: nat, b: nat, m: nat)
    ensures a < b ==> m * a + m <= m * b
  {
    if a < b {
      MulMono(a + 1, b, m);
    }
  }

  lemma AlignedFits(p: nat, n: nat, size: nat, len: nat, index: nat)
    requires p > 0 && n > 0 && size % p == 0 && len <= p && p * n > 0
    ensures index * size % (p * n) + len <= p * n
  {
    var a := size / p;
    var q, r := index * a / n, index * a % n;
    assert index * size == (p * n) * q + p * r by {
      assert size == p * a;
      assert index * a == n * q + r;
      assert index * (p * a) == p * (index * a);
      assert p * (n * q + r) == (p * n) * q + p * r;
    }
    assert p * r + p <= p * n by { MulMono(r + 1, n, p); }
    DivMod(index * size, p * n, q, p * r);
  }

  lemma TimesOdd(a: nat, h: nat, n: nat)
    requires n == 2 * h + 1
    ensures a * n == (2 * a) * h + a
  {
    assert a * (2 * h + 1) == a * (2 * h) + a;
    assert a * (2 * h) == (2 * a) * h;
  }

  lemma TimesEven(a: nat, h: nat, n: nat, p: nat, q: nat, r: nat)
    requires n == 2 * h && a * h == p * q + r
    ensures a * n == (2 * p) * q + 2 * r
  {
    assert a * (2 * h) == 2 * (a * h);
    assert 2 * (p * q) == (2 * p) * q;
  }

  /** Some multiple of a size not divisible by p = 2^m is p/2 modulo p. */
  lemma {:induction false} HalfMultiple(m: nat, size: nat) returns (a: nat, q: nat)
    requires m > 0 && size % Pow2(m) != 0
    ensures a * size == Pow2(m) * q + Pow2(m - 1)
  {
    if size % 2 == 1 {
      a, q := Pow2(m - 1), size / 2;
      TimesOdd(a, q, size);
    } else {
      var half := size / 2;
      HalfRemainder(m, half);
      a, q := HalfMultiple(m - 1, half);
      TimesEven(a, half, size, Pow2(m - 1), q, Pow2(m - 2));
    }
  }

  lemma HalfRemainder(m: nat, half: nat)
    requires m > 0 && 2 * half % Pow2(m) != 0
    ensures m > 1 && half % Pow2(m - 1) != 0
  {
    var p := Pow2(m - 1);
    var t, r := half / p, half % p;
    if r == 0 {
      assert half == p * t;
      assert 2 * half == (2 * p) * t + 0;
      DivMod(2 * half, 2 * p, t, 0);
    }
  }

  lemma LiftOdd(x: nat, b: nat, q: nat, t: nat, h: nat)
    requires x == b * q + b - h && q == 2 * t + 1 && h <= b
    ensures x == (2 * b) * t + 2 * b - h
  {
    TimesOdd(b, t, q);
  }

  lemma LiftEven(a: nat, y: nat, size: nat, b: nat, q: nat, t: nat, q0: nat, h: nat)
    requires a * size == b * q + b - h && q == 2 * t && h <= b
    requires y * size == (2 * b) * q0 + b
    ensures (a + y) * size == (2 * b) * (t + q0) + 2 * b - h
  {
    assert (a + y) * size == a * size + y * size;
    assert b * (2 * t) == (2 * b) * t;
    assert (2 * b) * (t + q0) == (2 * b) * t + (2 * b) * q0;
  }

  lemma Scale(c: nat, a: nat, size: nat, p: nat, q: nat, h: nat)
    requires a * size == p * q + h
    ensures (c * a) * size == (c * p) * q + c * h
  {
    assert (c * a) * size == c * (a * size);
    assert c * (p * q + h) == c * (p * q) + c * h;
    assert c * (p * q) == (c * p) * q;
  }

  /** ... and some multiple is p/2 below a multiple of the block size p * 2^j. */
  lemma {:induction false} LastHalf(m: nat, j: nat, size: nat) returns (a: nat, q: nat)
    requires m > 0 && size % Pow2(m) != 0
    ensures a * size == Pow2(m + j) * q + Pow2(m + j) - Pow2(m - 1)
    decreases j
  {
    if j == 0 {
      a, q := HalfMultiple(m, size);
    } else {
      a, q := LastHalf(m, j - 1, size);
      var b, h, t := Pow2(m + j - 1), Pow2(m - 1), q / 2;
      HalfBelow(m, j);
      if q % 2 == 1 {
        LiftOdd(a * size, b, q, t, h);
        q := t;
      } else {
        var a0, q0 := HalfMultiple(m, size);
        Scale(Pow2(j), a0, size, Pow2(m), q0, h);
        Pow2Split(j, m);
        Pow2Split(j, m - 1);
        LiftEven(a, Pow2(j) * a0, size, b, q, t, q0, h);
        a, q := a + Pow2(j) * a0, t + q0;
      }
    }
  }

  lemma HalfBelow(m: nat, j: nat)
    requires m > 0 && j > 0
    ensures Pow2(m - 1) <= Pow2(m + j - 1)
  {
    Pow2Split(j, m - 1);
    MulMono(1, Pow2(j), Pow2(m - 1));
  }

  lemma MulTwice(x: nat, y: nat)
    ensures (2 * x) * y == 2 * (x * y)
  {
  }

  lemma {:induction false} Pow2Split(a: nat, b: nat)
    ensures Pow2(a) * Pow2(b) == Pow2(a + b)
  {
    if a > 0 {
      Pow2Split(a - 1, b);
      MulTwice(Pow2(a - 1), Pow2(b));
    }
  }

  /** With blocks of 2^(m + j) bytes and records of more than 2^(m-1) and at most 2^m bytes, no record
      straddles a block exactly when the slot size is a multiple of 2^m. */
  lemma StraddleExact(m: nat, j: nat, size: nat, len: nat)
    requires m > 0 && Pow2(m - 1) < len <= Pow2(m)
    ensures NeverStraddles(Pow2(m + j), size, len) <==> size % Pow2(m) == 0
  {
    var bs := Pow2(m + j);
    Pow2Split(m, j);
    if size % Pow2(m) == 0 {
      forall index: nat ensures SlotOffset(index, size, bs) + len <= bs {
        AlignedFits(Pow2(m), Pow2(j), size, len, index);
      }
    } else {
      var a, q := LastHalf(m, j, size);
      HalfBelow(m, j + 1);
      DivMod(a * size, bs, q, bs - Pow2(m - 1));
      assert SlotOffset(a, size, bs) + len > bs;
    }
  }

  /** The geometries no table of which, however long, has a record across a block boundary. */
  predicate Addressable(g: Geometry) {
    && (exists k :: 0 <= k < 22 && g.blockSize == BlockSizeOf(k))
    && g.inodeSize % 128 == 0
    && g.descSize % (if g.is64Bit then 64 else 32) == 0
  }

  lemma BlockSizePow2(k: nat)
    requires k < 22
    ensures BlockSizeOf(k) == Pow2(10 + k)
  {
    Pow2Split(10, k);
    assert Pow2(10) == 1024 by { assert Pow2(5) == 32; Pow2Split(5, 5); }
  }

  /** Wherever the shift is defined, the block size is the 32-bit product. */
  lemma BlockSizeWraps(log: nat)
    requires log < 32
    ensures BlockSizeOf(log) == 1024 * Pow2(log) % 0x1_0000_0000
  {
    hide *;
    LargePowers();
    Pow2Split(10, log);
    BlockSizeCases(log);
    if log < 22 {
      Pow2Split(10 + log, 22 - log);
      Pow2AtLeastTwo(22 - log);
      MulMono(2, Pow2(22 - log), Pow2(10 + log));
      DivMod(Pow2(10 + log), 0x1_0000_0000, 0, Pow2(10 + log));
    } else {
      Pow2Split(32, log - 22);
      DivMod(Pow2(10 + log), 0x1_0000_0000, Pow2(log - 22), 0);
    }
  }

  lemma BlockSizeCases(log: nat)
    ensures BlockSizeOf(log) == if log < 22 then 1024 * Pow2(log) else 0
  {
  }

  lemma LargePowers()
    ensures Pow2(10) == 1024 && Pow2(32) == 0x1_0000_0000
  {
    SmallPowers();
    hide Pow2;
    Pow2Split(5, 5);
    Pow2Split(4, 4);
    Pow2Split(8, 8);
    Pow2Split(16, 16);
  }

  lemma Pow2AtLeastTwo(n: nat)
    requires n > 0
    ensures Pow2(n) >= 2
  {
  }

  /** For every block size the superblock can declare, inode records (112 bytes) and descriptors
      (64 or 32 bytes) of tables without end all stay inside their block exactly in these geometries. */
  lemma AddressableExact(g: Geometry)
    requires exists k :: 0 <= k < 22 && g.blockSize == BlockSizeOf(k)
    ensures g.blockSize > 0
    ensures Addressable(g)
       <==> NeverStraddles(g.blockSize, g.inodeSize, INODE_RECORD)
            && NeverStraddles(g.blockSize, g.descSize, if g.is64Bit then 64 else 32)
  {
    var k: nat :| k < 22 && g.blockSize == BlockSizeOf(k);
    BlockSizePow2(k);
    SmallPowers();
    StraddleExact(7, 3 + k, g.inodeSize, INODE_RECORD);
    if g.is64Bit {
      StraddleExact(6, 4 + k, g.descSize, 64);
    } else {
      StraddleExact(5, 5 + k, g.descSize, 32);
    }
  }

  // ---------------------------------------------------------------------------
  // Group descriptors and inodes
  // ---------------------------------------------------------------------------

  ghost predicate Mounted(g: Geometry, d: Disk) {
    d.Valid() && d.blockSize == g.blockSize && Addressable(g)
  }

  lemma SlotFits(g: Geometry, index: nat)
    requires Addressable(g)
    ensures g.blockSize > 0
    ensures index * g.inodeSize % g.blockSize + INODE_RECORD <= g.blockSize
    ensures index * g.descSize % g.blockSize + (if g.is64Bit then 64 else 32) <= g.blockSize
  {
    AddressableExact(g);
    assert SlotOffset(index, g.inodeSize, g.blockSize) + INODE_RECORD <= g.blockSize;
    assert SlotOffset(index, g.descSize, g.blockSize) + DescLength(g) <= g.blockSize;
  }

  function DescLength(g: Geometry): nat {
    if g.is64Bit then 64 else 32
  }

  /** First block of a group's inode table; 0 when its descriptor cannot be read. */
  ghost function InodeTable(g: Geometry, d: Disk, group: nat): nat
    requires Mounted(g, d)
  {
    SlotFits(g, group);
    var bytes := group * g.descSize;
    QuotientNat(bytes, g.blockSize);
    match d.Read((if g.blockSize == 1024 then 2 else 1) + bytes / g.blockSize)
    case None => 0
    case Some(b) => TableField(g, b, bytes % g.blockSize)
  }

  function TableField(g: Geometry, b: seq<byte>, at: nat): nat
    requires at + DescLength(g) <= |b|
  {
    if g.is64Bit then TWO_32 * LE32(b, at + 40) + LE32(b, at + 8) else LE32(b, at + 8)
  }

  /** The block group an inode number belongs to, and its slot in the group's table. */
  function Group(g: Geometry, ino: nat): nat
    requires ino > 0 && g.inodesPerGroup > 0
  {
    QuotientNat(ino - 1, g.inodesPerGroup);
    (ino - 1) / g.inodesPerGroup
  }

  function Slot(g: Geometry, ino: nat): (r: nat)
    requires ino > 0 && g.inodesPerGroup > 0
    ensures r < g.inodesPerGroup
  {
    (ino - 1) % g.inodesPerGroup
  }

  /** The 112-byte record of an inode, or None where `readInode` returns false. */
  ghost function Inode(g: Geometry, d: Disk, ino: nat): (r: Option<seq<byte>>)
    requires Mounted(g, d)
    ensures r.Some? ==> |r.value| == INODE_RECORD
  {
    if ino == 0 || g.inodesPerGroup == 0 then None
    else
      var table := InodeTable(g, d, Group(g, ino));
      SlotFits(g, Slot(g, ino));
      var bytes := Slot(g, ino) * g.inodeSize;
      QuotientNat(bytes, g.blockSize);
      if table == 0 then None
      else match d.Read((table + bytes / g.blockSize) % TWO_64)
        case None => None
        case Some(b) => Some(b[bytes % g.blockSize..bytes % g.blockSize + INODE_RECORD])
  }

  function InodeSize(inode: seq<byte>): nat
    requires |inode| == INODE_RECORD
  {
    TWO_32 * LE32(inode, 108) + LE32(inode, 4)
  }

  function InodeBlocks(inode: seq<byte>): (r: seq<byte>)
    requires |inode| == INODE_RECORD
    ensures |r| == 60
  {
    inode[40..100]
  }

  /** The byte address "Finding an Inode" gives: the group's table, then index slots of inodeSize. */
  ghost function InodeAddress(g: Geometry, d: Disk, ino: nat): nat
    requires Mounted(g, d) && ino > 0 && g.inodesPerGroup > 0
  {
    ProductNat(InodeTable(g, d, Group(g, ino)), g.blockSize);
    ProductNat(Slot(g, ino), g.inodeSize);
    InodeTable(g, d, Group(g, ino)) * g.blockSize + Slot(g, ino) * g.inodeSize
  }

  /** On a readable disk every inode whose table exists is the 112 bytes at its flat address, as long
      as the address lies on the disk. */
  lemma InodeAtAddress(g: Geometry, d: Disk, ino: nat)
    requires Mounted(g, d) && ino > 0 && g.inodesPerGroup > 0 && AllReadable(d)
    requires |d.blocks| < TWO_64
    requires InodeTable(g, d, Group(g, ino)) != 0
    requires InodeAddress(g, d, ino) < |Flat(d)|
    ensures InodeAddress(g, d, ino) + INODE_RECORD <= |Flat(d)|
    ensures Inode(g, d, ino)
         == Some(Flat(d)[InodeAddress(g, d, ino)..InodeAddress(g, d, ino) + INODE_RECORD])
  {
    hide Flat, InodeTable, Group, Slot, Addressable, Inode;
    var bytes: nat := Slot(g, ino) * g.inodeSize;
    SlotFits(g, Slot(g, ino));
    var bs := g.blockSize;
    var block, at := AddressSplit(InodeTable(g, d, Group(g, ino)), bytes, bs);
    FlatLength(d);
    BlockBelow(block, at, |d.blocks|, bs);
    InodeInBlock(g, d, ino, block, at);
    FlatSlice(d, block, at, INODE_RECORD);
  }

  /** Where table block and slot add up to 2^64 and more, block numbers go round: the record is read at the
      address modulo 2^64 blocks. */
  lemma InodeWraps(g: Geometry, d: Disk, ino: nat, address: nat)
    requires Mounted(g, d) && ino > 0 && g.inodesPerGroup > 0 && g.blockSize > 0 && AllReadable(d)
    requires |d.blocks| <= TWO_64 && InodeTable(g, d, Group(g, ino)) != 0
    requires address < |Flat(d)| && exists q: nat :: InodeAddress(g, d, ino) == q * (TWO_64 * g.blockSize) + address
    ensures address + INODE_RECORD <= |Flat(d)|
    ensures Inode(g, d, ino) == Some(Flat(d)[address..address + INODE_RECORD])
  {
    var q: nat :| InodeAddress(g, d, ino) == q * (TWO_64 * g.blockSize) + address;
    var bs := g.blockSize;
    assert bs == d.blockSize && d.Valid();
    hide *;
    SlotFits(g, Slot(g, ino));
    ProductNat(Slot(g, ino), g.inodeSize);
    AddressIs(g, d, ino);
    FlatLength(d);
    var table := InodeTable(g, d, Group(g, ino));
    var block, at := WrappedBlock(table, Slot(g, ino) * g.inodeSize, bs, q, address, |d.blocks|);
    InodeInWrappedBlock(g, d, ino, block, at);
    FlatSlice(d, block, at, INODE_RECORD);
  }

  /** Blocks and offsets of an address that goes round. */
  lemma WrappedBlock(table: nat, bytes: nat, bs: nat, q: nat, address: nat, count: nat) returns (block: nat, at: nat)
    requires bs > 0 && count <= TWO_64 && address < count * bs
    requires table * bs + bytes == q * (TWO_64 * bs) + address
    ensures at == bytes % bs && block * bs + at == address && block < count
    ensures bytes / bs >= 0 && block == (table + bytes / bs) % TWO_64
  {
    var whole, rest;
    whole, at := AddressSplit(table, bytes, bs);
    block, rest := AddressSplit(0, address, bs);
    WrapAddress(whole, at, bs, q, block, rest);
    BlockBelow(block, rest, count, bs);
    DivMod(whole, TWO_64, q, block);
  }

  lemma AddressIs(g: Geometry, d: Disk, ino: nat)
    requires Mounted(g, d) && ino > 0 && g.inodesPerGroup > 0
    ensures InodeAddress(g, d, ino) == InodeTable(g, d, Group(g, ino)) * g.blockSize + Slot(g, ino) * g.inodeSize
  {
  }

  lemma WrapAddress(block: nat, at: nat, bs: nat, q: nat, wrapped: nat, rest: nat)
    requires bs > 0 && at < bs && rest < bs && block * bs + at == q * (TWO_64 * bs) + (wrapped * bs + rest)
    ensures block == TWO_64 * q + wrapped && at == rest
  {
    assert q * (TWO_64 * bs) + wrapped * bs == bs * (TWO_64 * q + wrapped);
    var x := block * bs + at;
    assert block * bs == bs * block;
    DivMod(x, bs, block, at);
    DivMod(x, bs, TWO_64 * q + wrapped, rest);
  }

  lemma InodeInWrappedBlock(g: Geometry, d: Disk, ino: nat, block: nat, at: nat)
    requires Mounted(g, d) && ino > 0 && g.inodesPerGroup > 0 && AllReadable(d) && g.blockSize > 0
    requires InodeTable(g, d, Group(g, ino)) != 0 && block < |d.blocks|
    requires block == (InodeTable(g, d, Group(g, ino)) + Slot(g, ino) * g.inodeSize / g.blockSize) % TWO_64
    requires at == Slot(g, ino) * g.inodeSize % g.blockSize && at + INODE_RECORD <= g.blockSize
    ensures |d.blocks[block].value| == g.blockSize
    ensures Inode(g, d, ino) == Some(d.blocks[block].value[at..at + INODE_RECORD])
  {
    hide InodeTable, Group, Slot, Addressable;
  }

  /** The record stands in one block of the table. */
  lemma InodeInBlock(g: Geometry, d: Disk, ino: nat, block: nat, at: nat)
    requires Mounted(g, d) && ino > 0 && g.inodesPerGroup > 0 && AllReadable(d) && g.blockSize > 0
    requires InodeTable(g, d, Group(g, ino)) != 0 && block < |d.blocks| < TWO_64
    requires block == InodeTable(g, d, Group(g, ino)) + Slot(g, ino) * g.inodeSize / g.blockSize
    requires at == Slot(g, ino) * g.inodeSize % g.blockSize && at + INODE_RECORD <= g.blockSize
    ensures |d.blocks[block].value| == g.blockSize
    ensures Inode(g, d, ino) == Some(d.blocks[block].value[at..at + INODE_RECORD])
  {
    hide InodeTable, Group, Slot, Addressable;
    assert block % TWO_64 == block;
  }

  lemma AddressSplit(table: nat, bytes: nat, bs: nat) returns (block: nat, at: nat)
    requires bs > 0
    ensures block == table + bytes / bs && at == bytes % bs
    ensures block * bs + at == table * bs + bytes
  {
    block, at := table + bytes / bs, bytes % bs;
    assert bytes == bs * (bytes / bs) + bytes % bs;
    assert (table + bytes / bs) * bs == table * bs + (bytes / bs) * bs;
  }

  lemma BlockBelow(block: nat, at: nat, count: nat, bs: nat)
    requires block * bs + at < count * bs
    ensures block < count
  {
    if count <= block {
      MulMono(count, block, bs);
    }
  }

  lemma FlatLength(d: Disk)
    requires d.Valid() && AllReadable(d)
    ensures |Flat(d)| == |d.blocks| * d.blockSize
  {
    ConcatLength(seq(|d.blocks|, i requires 0 <= i < |d.blocks| => d.blocks[i].value), d.blockSize);
  }

  /** The tables of two groups do not overlap. */
  ghost predicate TablesApart(g: Geometry, d: Disk, a: nat, b: nat)
    requires Mounted(g, d)
  {
    var x, y := InodeTable(g, d, a) * g.blockSize, InodeTable(g, d, b) * g.blockSize;
    x + g.inodesPerGroup * g.inodeSize <= y || y + g.inodesPerGroup * g.inodeSize <= x
  }

  /** Different inode numbers never share a byte when the tables of different groups do not. */
  lemma InodesDisjoint(g: Geometry, d: Disk, i: nat, j: nat)
    requires Mounted(g, d) && 0 < i && 0 < j && i != j && g.inodesPerGroup > 0 && g.inodeSize > 0
    requires Group(g, i) != Group(g, j) ==> TablesApart(g, d, Group(g, i), Group(g, j))
    ensures InodeAddress(g, d, i) + INODE_RECORD <= InodeAddress(g, d, j)
         || InodeAddress(g, d, j) + INODE_RECORD <= InodeAddress(g, d, i)
  {
    hide InodeTable, Group, Slot, Addressable;
    SlotRange(g, i);
    SlotRange(g, j);
    SlotsApart(Slot(g, i), Slot(g, j), g.inodeSize);
    var s, n := g.inodeSize, g.inodesPerGroup;
    RecordsApart(InodeTable(g, d, Group(g, i)) * g.blockSize, InodeTable(g, d, Group(g, j)) * g.blockSize,
                 Slot(g, i) * s, Slot(g, j) * s, s, n * s, Group(g, i) == Group(g, j));
  }

  /** Slots of one table, or of two tables that do not overlap, do not overlap. */
  lemma RecordsApart(x: int, y: int, a: int, b: int, s: int, table: int, same: bool)
    requires 0 <= a && 0 <= b && a + s <= table && b + s <= table && INODE_RECORD <= s
    requires if same then x == y && (a + s <= b || b + s <= a) else x + table <= y || y + table <= x
    ensures x + a + INODE_RECORD <= y + b || y + b + INODE_RECORD <= x + a
  {
  }

  /** An inode number is determined by its group and slot, and its slot lies in the group's table. */
  lemma SlotRange(g: Geometry, i: nat)
    requires 0 < i && g.inodesPerGroup > 0 && Addressable(g)
    ensures Slot(g, i) * g.inodeSize + g.inodeSize <= g.inodesPerGroup * g.inodeSize
    ensures i - 1 == g.inodesPerGroup * Group(g, i) + Slot(g, i)
    ensures g.inodeSize > 0 ==> g.inodeSize >= INODE_RECORD
  {
    SlotsInTable(Slot(g, i), g.inodesPerGroup, g.inodeSize);
  }

  lemma SlotsInTable(a: nat, n: nat, s: nat)
    requires a < n
    ensures a * s + s <= n * s
  {
    MulMono(a + 1, n, s);
  }

  lemma SlotsApart(a: nat, b: nat, s: nat)
    ensures a < b ==> a * s + s <= b * s
    ensures b < a ==> b * s + s <= a * s
  {
    StepUp(a, b, s);
    StepUp(b, a, s);
  }

  // ---------------------------------------------------------------------------
  // The tables a geometry has: no record the reader copies crosses a block
  // ---------------------------------------------------------------------------

  /** Every record of `len` bytes in a table of `count` slots lies inside one block. */
  ghost predicate TableFits(blockSize: nat, size: nat, len: nat, count: nat)
    requires blockSize > 0
  {
    forall index: nat :: index < count ==> SlotOffset(index, size, blockSize) + len <= blockSize
  }

  /** The first slot from `from` on whose record crosses its block's end, or the block size when none
      below it does: slots repeat with the block size. */
  function FirstCrossing(blockSize: nat, size: nat, len: nat, from: nat): (r: nat)
    requires blockSize > 0 && from <= blockSize
    ensures from <= r <= blockSize
    ensures r < blockSize ==> SlotOffset(r, size, blockSize) + len > blockSize
    ensures forall index: nat :: from <= index < r ==> SlotOffset(index, size, blockSize) + len <= blockSize
    decreases blockSize - from
  {
    if from == blockSize || SlotOffset(from, size, blockSize) + len > blockSize then from
    else FirstCrossing(blockSize, size, len, from + 1)
  }

  /** Slots that are a multiple of the block size apart stand at the same place in their blocks. */
  lemma SlotsRepeat(index: nat, size: nat, blockSize: nat)
    requires blockSize > 0
    ensures SlotOffset(index % blockSize, size, blockSize) == SlotOffset(index, size, blockSize)
  {
    var q, r := index / blockSize, index % blockSize;
    QuotientNat(index, blockSize);
    assert index == blockSize * q + r;
    var t, rest := Divided(r, size, blockSize);
    Regroup(blockSize, q, r, size, t, rest);
    ProductNat(q, size);
    DivMod(index * size, blockSize, q * size + t, rest);
  }

  lemma Divided(r: nat, size: nat, bs: nat) returns (t: nat, rest: nat)
    requires bs > 0
    ensures r * size == bs * t + rest && rest < bs && SlotOffset(r, size, bs) == rest
  {
    ProductNat(r, size);
    QuotientNat(r * size, bs);
    t, rest := r * size / bs, r * size % bs;
  }

  lemma Regroup(bs: nat, q: nat, r: nat, size: nat, t: nat, rest: nat)
    requires r * size == bs * t + rest
    ensures (bs * q + r) * size == bs * (q * size + t) + rest
  {
    assert (bs * q + r) * size == bs * q * size + r * size;
    assert bs * (q * size + t) == bs * (q * size) + bs * t;
    assert bs * q * size == bs * (q * size);
  }

  /** A table of `count` slots keeps its records inside blocks exactly when the slot size is a multiple of
      2^m or the table ends before the first slot that crosses; from blockSize slots on, exactly when
      the slot size is such a multiple. */
  lemma TableFitsExactly(m: nat, j: nat, size: nat, len: nat, count: nat)
    requires m > 0 && Pow2(m - 1) < len <= Pow2(m)
    ensures var bs := Pow2(m + j);
            && (TableFits(bs, size, len, count) <==> size % Pow2(m) == 0 || count <= FirstCrossing(bs, size, len, 0))
            && (count >= bs ==> (TableFits(bs, size, len, count) <==> size % Pow2(m) == 0))
  {
    var bs := Pow2(m + j);
    StraddleExact(m, j, size, len);
    var first := FirstCrossing(bs, size, len, 0);
    if size % Pow2(m) != 0 {
      CrossingBelow(bs, size, len);
    }
    hide SlotOffset, Pow2, FirstCrossing;
  }

  /** If any slot crosses, one below the block size does. */
  lemma CrossingBelow(bs: nat, size: nat, len: nat)
    requires bs > 0 && !NeverStraddles(bs, size, len)
    ensures FirstCrossing(bs, size, len, 0) < bs
  {
    hide FirstCrossing, SlotOffset;
    var index: nat :| SlotOffset(index, size, bs) + len > bs;
    SlotsRepeat(index, size, bs);
    assert index % bs < bs;
    assert FirstCrossing(bs, size, len, 0) <= index % bs;
  }

  /** The number of groups that 32-bit inode numbers reach. */
  function GroupCount(g: Geometry): (n: nat)
    requires g.inodesPerGroup > 0
    ensures n > 0
  {
    QuotientNat(TWO_32 - 2, g.inodesPerGroup);
    (TWO_32 - 2) / g.inodesPerGroup + 1
  }

  /** Whatever inode number is asked for, its descriptor and its record lie inside one block buffer. */
  ghost predicate RecordsInside(g: Geometry)
    requires g.blockSize > 0 && g.inodesPerGroup > 0
  {
    forall ino: nat :: 0 < ino < TWO_32 ==>
      && SlotOffset(Group(g, ino), g.descSize, g.blockSize) + DescLength(g) <= g.blockSize
      && SlotOffset(Slot(g, ino), g.inodeSize, g.blockSize) + INODE_RECORD <= g.blockSize
  }

  /** Both tables are aligned, or end before a record crosses. */
  predicate TablesAddressable(g: Geometry)
    requires g.blockSize > 0 && g.inodesPerGroup > 0
  {
    && (g.inodeSize % 128 == 0 || g.inodesPerGroup <= FirstCrossing(g.blockSize, g.inodeSize, INODE_RECORD, 0))
    && (g.descSize % DescLength(g) == 0
        || GroupCount(g) <= FirstCrossing(g.blockSize, g.descSize, DescLength(g), 0))
  }

  /** The slots and groups met over all inode numbers are those of the tables. */
  lemma NumbersCoverTables(g: Geometry)
    requires g.blockSize > 0 && 0 < g.inodesPerGroup < TWO_32
    ensures RecordsInside(g)
       <==> TableFits(g.blockSize, g.inodeSize, INODE_RECORD, g.inodesPerGroup)
            && TableFits(g.blockSize, g.descSize, DescLength(g), GroupCount(g))
  {
    hide SlotOffset;
    if RecordsInside(g) {
      forall index: nat | index < g.inodesPerGroup
        ensures SlotOffset(index, g.inodeSize, g.blockSize) + INODE_RECORD <= g.blockSize
      {
        DivMod(index, g.inodesPerGroup, 0, index);
        assert Slot(g, index + 1) == index;
      }
      forall group: nat | group < GroupCount(g)
        ensures SlotOffset(group, g.descSize, g.blockSize) + DescLength(g) <= g.blockSize
      {
        var ino := FirstOfGroup(g, group);
      }
    }
    forall ino: nat | 0 < ino < TWO_32 ensures Group(g, ino) < GroupCount(g) {
      GroupBelow(g, ino);
    }
  }

  lemma FirstOfGroup(g: Geometry, group: nat) returns (ino: nat)
    requires g.inodesPerGroup > 0 && group < GroupCount(g)
    ensures 0 < ino < TWO_32 && Group(g, ino) == group
  {
    var n := g.inodesPerGroup;
    ProductNat(n, group);
    ino := n * group + 1;
    DivMod(n * group, n, group, 0);
    StepUp((TWO_32 - 2) / n, group, n);
    MulMono(group, (TWO_32 - 2) / n, n);
    assert TWO_32 - 2 == n * ((TWO_32 - 2) / n) + (TWO_32 - 2) % n;
  }

  lemma GroupBelow(g: Geometry, ino: nat)
    requires g.inodesPerGroup > 0 && 0 < ino < TWO_32
    ensures Group(g, ino) < GroupCount(g)
  {
    var n := g.inodesPerGroup;
    var a, b := (ino - 1) / n, (TWO_32 - 2) / n;
    QuotientNat(ino - 1, n);
    QuotientNat(TWO_32 - 2, n);
    assert ino - 1 == n * a + (ino - 1) % n && TWO_32 - 2 == n * b + (TWO_32 - 2) % n;
    StepUp(b, a, n);
  }

  /** For every geometry a superblock can declare, no inode number makes the reader copy a record from
      outside a block buffer exactly when each table is aligned or short enough. */
  lemma RecordsInsideExactly(g: Geometry)
    requires exists k :: 0 <= k < 22 && g.blockSize == BlockSizeOf(k)
    requires 0 < g.inodesPerGroup < TWO_32
    ensures g.blockSize > 0
    ensures RecordsInside(g) <==> TablesAddressable(g)
    ensures Addressable(g) ==> RecordsInside(g)
  {
    TablesExactly(g);
    NumbersCoverTables(g);
    AddressableExact(g);
    hide FirstCrossing, TableFits, RecordsInside, BlockSizeOf, GroupCount, NeverStraddles;
  }

  lemma TablesExactly(g: Geometry)
    requires exists k :: 0 <= k < 22 && g.blockSize == BlockSizeOf(k)
    requires 0 < g.inodesPerGroup < TWO_32
    ensures g.blockSize > 0
    ensures var n, bs := g.inodesPerGroup, g.blockSize;
            var fits, aligned := TableFits(bs, g.inodeSize, INODE_RECORD, n), g.inodeSize % 128 == 0;
            && (fits <==> aligned || n <= FirstCrossing(bs, g.inodeSize, INODE_RECORD, 0))
            && (n >= bs ==> (fits <==> aligned))
    ensures var n, bs := DescLength(g), g.blockSize;
            var fits, aligned := TableFits(bs, g.descSize, n, GroupCount(g)), g.descSize % n == 0;
            && (fits <==> aligned || GroupCount(g) <= FirstCrossing(bs, g.descSize, n, 0))
            && (GroupCount(g) >= bs ==> (fits <==> aligned))
  {
    var k: nat :| k < 22 && g.blockSize == BlockSizeOf(k);
    BlockSizePow2(k);
    SmallPowers();
    hide Pow2, FirstCrossing, TableFits, BlockSizeOf, GroupCount;
    TableFitsExactly(7, 3 + k, g.inodeSize, INODE_RECORD, g.inodesPerGroup);
    if g.is64Bit {
      TableFitsExactly(6, 4 + k, g.descSize, 64, GroupCount(g));
    } else {
      TableFitsExactly(5, 5 + k, g.descSize, 32, GroupCount(g));
    }
  }

  lemma SmallPowers()
    ensures Pow2(4) == 16 && Pow2(5) == 32 && Pow2(6) == 64 && Pow2(7) == 128
  {
    assert Pow2(2) == 4;
    Pow2Split(2, 2);
  }

  /** Long tables leave no other way: with at least blockSize inodes a group, and so few that there are
      as many groups, records stay inside exactly in the addressable geometries. */
  lemma LongTablesExactly(g: Geometry)
    requires exists k :: 0 <= k < 22 && g.blockSize == BlockSizeOf(k)
    requires g.blockSize <= g.inodesPerGroup < TWO_32 && g.blockSize <= GroupCount(g)
    ensures RecordsInside(g) <==> Addressable(g)
  {
    TablesExactly(g);
    NumbersCoverTables(g);
    hide FirstCrossing, TableFits, RecordsInside, GroupCount, BlockSizeOf;
  }

  /** A short table need not be aligned: eight inodes of 144 bytes stand in the first 4096-byte block. */
  lemma ShortTableFits()
    ensures var g := Geometry(4096, 8, 144, 32, false); RecordsInside(g) && !Addressable(g)
  {
    var g := Geometry(4096, 8, 144, 32, false);
    assert BlockSizeOf(2) == 4096 by { assert Pow2(0) == 1 && Pow2(1) == 2 && Pow2(2) == 4; }
    NumbersCoverTables(g);
    forall index: nat | index < 8 ensures SlotOffset(index, 144, 4096) + INODE_RECORD <= 4096 {
      DivMod(index * 144, 4096, 0, index * 144);
    }
    SmallPowers();
    Pow2Split(5, 7);
    TableFitsExactly(5, 7, 32, 32, GroupCount(g));
  }
}
