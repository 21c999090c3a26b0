/** The Android sparse image format as the block device reads it: headers, chunk index,
    block lookup, and the linear expansion every lookup is measured against. */
module SparseImage {
  import opened Bytes

  const SPARSE_MAGIC: nat := 0xED26FF3A
  const CHUNK_TYPE_RAW: nat := 0xCAC1
  const CHUNK_TYPE_FILL: nat := 0xCAC2
  const CHUNK_TYPE_DONT_CARE: nat := 0xCAC3

  const FILE_HEADER_SIZE: nat := 28
  const CHUNK_HEADER_SIZE: nat := 12

  datatype SparseHeader = SparseHeader(
    magic: nat, fileHdrSz: nat, chunkHdrSz: nat, blkSz: nat, totalBlks: nat, totalChunks: nat)

  datatype ChunkHeader = ChunkHeader(chunkType: nat, chunkSz: nat, totalSz: nat)

  datatype SparseChunk = SparseChunk(
    virtualBlockStart: nat, blockCount: nat, chunkType: nat, fillVal: nat, fileOffset: nat)

  /** A full pread: the n bytes at `offset`, or None where the source sees a short or failed read. */
  function Pread(file: seq<byte>, n: nat, offset: int): (r: Option<seq<byte>>)
    ensures r.Some? ==> |r.value| == n
  {
    if offset < 0 then None
    else if n == 0 then Some([])
    else if offset + n <= |file| then Some(file[offset..offset + n])
    else None
  }

  /** The value of an unsigned 64-bit product cast to the signed 64-bit off_t. */
  function OffT(x: nat): int {
    var y := x % TWO_64;
    if y < TWO_63 then y else y - TWO_64
  }

  lemma OffTExact(x: nat)
    requires x < TWO_63
    ensures OffT(x) == x
  {
  }

  /** In any case the signed value that is the product modulo 2^64. */
  lemma OffTWraps(x: nat)
    ensures -0x8000_0000_0000_0000 <= OffT(x) < 0x8000_0000_0000_0000
    ensures (x - OffT(x)) % 0x1_0000_0000_0000_0000 == 0
  {
  }

  function ParseHeader(b: seq<byte>): SparseHeader
    requires |b| == FILE_HEADER_SIZE
  {
    SparseHeader(LE32(b, 0), LE16(b, 8), LE16(b, 10), LE32(b, 12), LE32(b, 16), LE32(b, 20))
  }

  function ParseChunkHeader(b: seq<byte>): ChunkHeader
    requires |b| == CHUNK_HEADER_SIZE
  {
    ChunkHeader(LE16(b, 0), LE32(b, 4), LE32(b, 8))
  }

  /** The fill word at `offset`; bytes past the end of the file stay zero. */
  function FillWord(file: seq<byte>, offset: nat): nat {
    if offset + 4 <= |file| then LE32(file, offset)
    else LE32((if offset <= |file| then file[offset..] else []) + Zeros(4), 0)
  }

  /** Each byte of a fill word is the file's, or zero behind the file's end. */
  lemma FillWordBytes(file: seq<byte>, offset: nat, j: nat)
    requires j < 4
    ensures Put32(FillWord(file, offset))[j] == if offset + j < |file| then file[offset + j] else 0
  {
    var b := if offset + 4 <= |file| then file[offset..offset + 4]
             else ((if offset <= |file| then file[offset..] else []) + Zeros(4))[..4];
    WordBytes(b[0], b[1], b[2], b[3]);
    assert FillWord(file, offset) == LE32(b, 0);
  }

  lemma WordBytes(a: byte, b: byte, c: byte, d: byte)
    ensures Put32(LE32([a, b, c, d], 0)) == [a, b, c, d]
  {
    var low: int, high: int := a + 0x100 * b, c + 0x100 * d;
    var n := low + TWO_16 * high;
    assert LE32([a, b, c, d], 0) == n;
    assert n % TWO_16 == low && n / TWO_16 == high;
  }

  function ChunkAt(file: seq<byte>, hdr: SparseHeader, h: ChunkHeader, offset: nat, start: nat): SparseChunk {
    var data := offset + hdr.chunkHdrSz;
    SparseChunk(start, h.chunkSz, h.chunkType,
                if h.chunkType == CHUNK_TYPE_FILL then FillWord(file, data) else 0, data)
  }

  /** The index of `n` chunks whose first header stands at `offset`; None when a header is truncated. */
  function Scan(file: seq<byte>, hdr: SparseHeader, n: nat, offset: nat, start: nat): (r: Option<seq<SparseChunk>>) {
    if n == 0 then Some([])
    else match Pread(file, CHUNK_HEADER_SIZE, offset)
      case None => None
      case Some(b) =>
        var h := ParseChunkHeader(b);
        match Scan(file, hdr, n - 1, offset + h.totalSz, start + h.chunkSz)
        case None => None
        case Some(rest) => Some([ChunkAt(file, hdr, h, offset, start)] + rest)
  }


  lemma ScanStep(file: seq<byte>, hdr: SparseHeader, n: nat, offset: nat, start: nat, h: ChunkHeader,
                 rest: seq<SparseChunk>)
    requires n > 0 && Pread(file, CHUNK_HEADER_SIZE, offset).Some?
    requires h == ParseChunkHeader(Pread(file, CHUNK_HEADER_SIZE, offset).value)
    requires Scan(file, hdr, n - 1, offset + h.totalSz, start + h.chunkSz) == Some(rest)
    ensures Scan(file, hdr, n, offset, start) == Some([ChunkAt(file, hdr, h, offset, start)] + rest)
  {
  }

  lemma ScanEnd(file: seq<byte>, hdr: SparseHeader, offset: nat, start: nat)
    ensures Scan(file, hdr, 0, offset, start) == Some([])
  {
  }

  // ---------------------------------------------------------------------------
  // What an index means
  // ---------------------------------------------------------------------------

  function FillBlock(fill: nat, size: nat): seq<byte>
    requires fill < TWO_32
  {
    seq(size, j requires 0 <= j => Put32(fill)[j % 4])
  }

  /** Filling a buffer word by word leaves the last size mod 4 bytes as they were. */
  function FillInto(fill: nat, was: seq<byte>): seq<byte>
    requires fill < TWO_32
  {
    FillBlock(fill, |was| / 4 * 4) + was[|was| / 4 * 4..]
  }

  /** The fill word covers every byte of a block exactly when the block size is a multiple of 4. */
  lemma FillExact(fill: nat, size: nat)
    requires fill < TWO_32
    ensures (forall was: seq<byte> :: |was| == size ==> FillInto(fill, was) == FillBlock(fill, size))
            <==> size % 4 == 0
  {
    if size % 4 != 0 {
      var last: int := Put32(fill)[(size - 1) % 4];
      var was: seq<byte> := seq(size, _ => (last + 1) % 256);
      assert FillInto(fill, was)[size - 1] == was[size - 1] != FillBlock(fill, size)[size - 1];
    }
  }

  /** Block k of a chunk in the expanded image. */
  function ChunkBlock(file: seq<byte>, size: nat, c: SparseChunk, k: nat): Option<seq<byte>>
    requires c.fillVal < TWO_32
  {
    if c.chunkType == CHUNK_TYPE_RAW then Pread(file, size, c.fileOffset + OffT(k * size))
    else if c.chunkType == CHUNK_TYPE_FILL then Some(FillBlock(c.fillVal, size))
    else Some(Zeros(size))
  }

  /** What reading block k of a chunk leaves in a buffer that held `was`. */
  function ChunkBlockInto(file: seq<byte>, c: SparseChunk, k: nat, was: seq<byte>): (r: Option<seq<byte>>)
    requires c.fillVal < TWO_32
    ensures r.Some? ==> |r.value| == |was|
  {
    if c.chunkType == CHUNK_TYPE_FILL then Some(FillInto(c.fillVal, was))
    else ChunkBlock(file, |was|, c, k)
  }

  /** Every chunk that is neither RAW nor FILL reads as zeros, DONT_CARE and unknown kinds alike. */
  lemma OtherChunksAreZeros(file: seq<byte>, c: SparseChunk, k: nat, was: seq<byte>)
    requires c.fillVal < TWO_32 && c.chunkType != 0xCAC1 && c.chunkType != 0xCAC2
    ensures ChunkBlockInto(file, c, k, was) == Some(seq(|was|, _ => 0))
  {
    assert Zeros(|was|) == seq(|was|, _ => 0);
  }

  predicate WellFormedIndex(cs: seq<SparseChunk>) {
    forall i :: 0 <= i < |cs| ==> cs[i].fillVal < TWO_32
  }

  /** The linear expansion: the blocks of all chunks one after another, with no addresses at all. */
  function Linear(file: seq<byte>, size: nat, cs: seq<SparseChunk>): seq<Option<seq<byte>>>
    requires WellFormedIndex(cs)
  {
    if cs == [] then []
    else seq(cs[0].blockCount, k requires 0 <= k => ChunkBlock(file, size, cs[0], k))
         + Linear(file, size, cs[1..])
  }

  lemma LinearCons(file: seq<byte>, size: nat, c: SparseChunk, rest: seq<SparseChunk>)
    requires WellFormedIndex(rest) && c.fillVal < TWO_32
    ensures WellFormedIndex([c] + rest)
    ensures Linear(file, size, [c] + rest)
         == seq(c.blockCount, k requires 0 <= k => ChunkBlock(file, size, c, k)) + Linear(file, size, rest)
  {
    var cs := [c] + rest;
    assert cs[1..] == rest && cs[0] == c;
  }

  function BlockSum(cs: seq<SparseChunk>): nat {
    if cs == [] then 0 else cs[0].blockCount + BlockSum(cs[1..])
  }

  /** The chunks cover [from, from + BlockSum) in order, without gap or overlap; empty chunks are allowed. */
  predicate Tiles(cs: seq<SparseChunk>, from: nat) {
    cs == [] || (cs[0].virtualBlockStart == from && Tiles(cs[1..], from + cs[0].blockCount))
  }

  /** Every index the scan builds has one entry per header, tiles the image and holds 32-bit fill values. */
  lemma {:induction false} ScanTiles(file: seq<byte>, hdr: SparseHeader, n: nat, offset: nat, start: nat)
    requires Scan(file, hdr, n, offset, start).Some?
    ensures var cs := Scan(file, hdr, n, offset, start).value;
            |cs| == n && Tiles(cs, start) && WellFormedIndex(cs)
            && |Linear(file, hdr.blkSz, cs)| == BlockSum(cs)
  {
    if n > 0 {
      var h := ParseChunkHeader(Pread(file, CHUNK_HEADER_SIZE, offset).value);
      ScanTiles(file, hdr, n - 1, offset + h.totalSz, start + h.chunkSz);
      var cs := Scan(file, hdr, n, offset, start).value;
      assert cs[1..] == Scan(file, hdr, n - 1, offset + h.totalSz, start + h.chunkSz).value;
    }
  }

  lemma {:induction false} TilesSorted(cs: seq<SparseChunk>, from: nat, i: nat, j: nat)
    requires Tiles(cs, from) && i <= j < |cs|
    ensures from <= cs[i].virtualBlockStart
    ensures cs[i].virtualBlockStart <= cs[j].virtualBlockStart
    ensures i < j ==> cs[i].virtualBlockStart + cs[i].blockCount <= cs[j].virtualBlockStart
    decreases |cs|
  {
    if i > 0 {
      TilesSorted(cs[1..], from + cs[0].blockCount, i - 1, j - 1);
    } else if j > 0 {
      TilesSorted(cs[1..], from + cs[0].blockCount, 0, j - 1);
    }
  }

  /** `i` is the position upper_bound returns for block b: the chunks before it start at or before b,
      the others after. */
  predicate IsUpperBound(cs: seq<SparseChunk>, b: nat, i: nat) {
    && i <= |cs|
    && (forall j :: 0 <= j < i ==> cs[j].virtualBlockStart <= b)
    && (forall j :: i <= j < |cs| ==> b < cs[j].virtualBlockStart)
  }

  function UpperBound(cs: seq<SparseChunk>, b: nat): (i: nat)
    ensures i <= |cs|
  {
    if cs == [] || b < cs[0].virtualBlockStart then 0 else 1 + UpperBound(cs[1..], b)
  }

  lemma {:induction false} UpperBoundMeets(cs: seq<SparseChunk>, from: nat, b: nat)
    requires Tiles(cs, from)
    ensures IsUpperBound(cs, b, UpperBound(cs, b))
  {
    if cs != [] {
      if b < cs[0].virtualBlockStart {
        forall j | 0 <= j < |cs| ensures b < cs[j].virtualBlockStart { TilesSorted(cs, from, 0, j); }
      } else {
        UpperBoundMeets(cs[1..], from + cs[0].blockCount, b);
        var i := UpperBound(cs[1..], b);
        forall j | 1 + i <= j < |cs| ensures b < cs[j].virtualBlockStart { assert cs[j] == cs[1..][j - 1]; }
        forall j | 0 <= j < 1 + i ensures cs[j].virtualBlockStart <= b {
          if j > 0 { assert cs[j] == cs[1..][j - 1]; }
        }
      }
    }
  }

  /** The chunk before the upper bound is the one that holds block b, if any chunk does, and its
      block at b's distance from its start is block b of the linear expansion. */
  lemma {:induction false} LookupIsLinear(file: seq<byte>, size: nat, cs: seq<SparseChunk>, from: nat, b: nat, i: nat)
    requires WellFormedIndex(cs) && Tiles(cs, from)
    requires from <= b && i < |cs| && IsUpperBound(cs, b, i + 1)
    ensures b < cs[i].virtualBlockStart + cs[i].blockCount <==> b - from < |Linear(file, size, cs)|
    ensures b - from < |Linear(file, size, cs)| ==>
              Linear(file, size, cs)[b - from] == ChunkBlock(file, size, cs[i], b - cs[i].virtualBlockStart)
    decreases |cs|
  {
    assert Linear(file, size, []) == [];
    hide ChunkBlock, Linear;
    var rest := cs[1..];
    LinearCons(file, size, cs[0], rest);
    assert cs == [cs[0]] + rest;
    if i > 0 {
      forall j | 0 <= j < |rest| ensures rest[j] == cs[j + 1] {}
      assert rest[i - 1] == cs[i];
      assert from + cs[0].blockCount <= b;
      LookupIsLinear(file, size, rest, from + cs[0].blockCount, b, i - 1);
    } else if |cs| > 1 {
      assert b < cs[1].virtualBlockStart && rest[0] == cs[1];
    }
  }

  // ---------------------------------------------------------------------------
  // The two kinds of device, as values
  // ---------------------------------------------------------------------------

  datatype DeviceView =
    | RawView(file: seq<byte>, blockSize: nat, totalBlocks: nat)
    | SparseView(file: seq<byte>, blockSize: nat, totalBlocks: nat, chunks: seq<SparseChunk>)

  predicate ValidView(v: DeviceView) {
    v.blockSize < TWO_32 && v.totalBlocks < TWO_64
    && (v.SparseView? ==> WellFormedIndex(v.chunks) && Tiles(v.chunks, 0))
  }

  /** What `readBlock(b, p)` leaves at p when p held `was`; None when it returns false. */
  function ReadInto(v: DeviceView, b: nat, was: seq<byte>): (r: Option<seq<byte>>)
    requires ValidView(v) && |was| == v.blockSize
    ensures r.Some? ==> |r.value| == v.blockSize
  {
    if b >= v.totalBlocks then None
    else match v
      case RawView(file, size, _) => Pread(file, size, OffT(b * size))
      case SparseView(file, size, _, cs) =>
        var i := UpperBound(cs, b);
        if i == 0 || b < cs[i - 1].virtualBlockStart
           || b >= cs[i - 1].virtualBlockStart + cs[i - 1].blockCount then None
        else ChunkBlockInto(file, cs[i - 1], b - cs[i - 1].virtualBlockStart, was)
  }

  /** Block b of the device when no buffer tail can show through. */
  function Block(v: DeviceView, b: nat): Option<seq<byte>>
    requires ValidView(v)
  {
    ReadInto(v, b, Zeros(v.blockSize))
  }

  lemma ReadIntoIsBlock(v: DeviceView, b: nat, was: seq<byte>)
    requires ValidView(v) && |was| == v.blockSize && v.blockSize % 4 == 0
    ensures ReadInto(v, b, was) == Block(v, b)
  {
    if v.SparseView? && 0 < UpperBound(v.chunks, b) {
      var c := v.chunks[UpperBound(v.chunks, b) - 1];
      FillExact(c.fillVal, v.blockSize);
    }
  }

  /** Binary search answers from the linear expansion: for b below the total, block b of the
      expansion, or failure past its end (and at and above the total always failure). */
  lemma SparseReadIsLinear(v: DeviceView, b: nat, was: seq<byte>)
    requires ValidView(v) && v.SparseView? && |was| == v.blockSize && v.blockSize % 4 == 0
    ensures var lin := Linear(v.file, v.blockSize, v.chunks);
            ReadInto(v, b, was) == if b < v.totalBlocks && b < |lin| then lin[b] else None
  {
    var cs := v.chunks;
    hide Linear, UpperBound, FillInto, Pread, OffT, FillBlock;
    UpperBoundMeets(cs, 0, b);
    var i := UpperBound(cs, b);
    if i > 0 {
      LookupIsLinear(v.file, v.blockSize, cs, 0, b, i - 1);
      FillExact(cs[i - 1].fillVal, v.blockSize);
    } else {
      NothingBefore(v.file, v.blockSize, cs, b);
    }
  }

  /** Only an image without chunks has none that starts at or before a block. */
  lemma NothingBefore(file: seq<byte>, size: nat, cs: seq<SparseChunk>, b: nat)
    requires Tiles(cs, 0) && WellFormedIndex(cs) && UpperBound(cs, b) == 0
    ensures Linear(file, size, cs) == []
  {
  }

  // ---------------------------------------------------------------------------
  // Disks: what a file system reader sees of a device
  // ---------------------------------------------------------------------------

  datatype Disk = Disk(blockSize: nat, blocks: seq<Option<seq<byte>>>) {
    function Read(b: nat): Option<seq<byte>> {
      if b < |blocks| then blocks[b] else None
    }

    predicate Valid() {
      forall i :: 0 <= i < |blocks| && blocks[i].Some? ==> |blocks[i].value| == blockSize
    }
  }

  function DiskOf(v: DeviceView): (d: Disk)
    requires ValidView(v)
    ensures d.Valid() && d.blockSize == v.blockSize && |d.blocks| == v.totalBlocks
  {
    Disk(v.blockSize, seq(v.totalBlocks, b requires 0 <= b => Block(v, b)))
  }
}
