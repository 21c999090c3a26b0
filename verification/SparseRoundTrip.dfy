/** A writer for sparse images, and the proof that the device opened on what it wrote is, block for
    block, the raw device on the plain expanded image. */
module SparseRoundTrip {
  import opened Bytes
  import opened SparseImage
  import opened BlockDevice

  const CHUNK_TYPE_CRC32: nat := 0xCAC4

  /** One chunk as a writer thinks of it. A CRC chunk expands to no blocks. */
  datatype Chunk =
    | RawData(blocks: seq<seq<byte>>)
    | Fill(word: nat, count: nat)
    | DontCare(count: nat)
    | Crc(sum: nat)
  {
    function Count(): nat {
      match this
      case RawData(bs) => |bs|
      case Fill(_, n) => n
      case DontCare(n) => n
      case Crc(_) => 0
    }

    function Type(): nat {
      match this
      case RawData(_) => CHUNK_TYPE_RAW
      case Fill(_, _) => CHUNK_TYPE_FILL
      case DontCare(_) => CHUNK_TYPE_DONT_CARE
      case Crc(_) => CHUNK_TYPE_CRC32
    }

    /** The fields of the format are wide enough for the chunk. */
    predicate Encodable(size: nat) {
      && Count() < TWO_32
      && (RawData? ==> AllSized(blocks, size)
                       && CHUNK_HEADER_SIZE + |Concat(blocks)| < TWO_32)
      && (Fill? ==> word < TWO_32)
      && (Crc? ==> sum < TWO_32)
    }

    function Payload(size: nat): seq<byte>
      requires Encodable(size)
    {
      match this
      case RawData(bs) => Concat(bs)
      case Fill(w, _) => Put32(w)
      case DontCare(_) => []
      case Crc(s) => Put32(s)
    }

    /** The blocks the chunk stands for. */
    function Expanded(size: nat): (r: seq<seq<byte>>)
      requires Encodable(size)
      ensures |r| == Count() && AllSized(r, size)
    {
      match this
      case RawData(bs) => bs
      case Fill(w, n) => seq(n, _ => FillBlock(w, size))
      case DontCare(n) => seq(n, _ => Zeros(size))
      case Crc(_) => []
    }
  }

  predicate AllEncodable(cs: seq<Chunk>, size: nat) {
    forall i :: 0 <= i < |cs| ==> cs[i].Encodable(size)
  }

  function EncodeChunk(c: Chunk, size: nat): (r: seq<byte>)
    requires c.Encodable(size)
    ensures CHUNK_HEADER_SIZE <= |r| == CHUNK_HEADER_SIZE + |c.Payload(size)| < TWO_32
  {
    Put16(c.Type()) + Put16(0) + Put32(c.Count()) + Put32(CHUNK_HEADER_SIZE + |c.Payload(size)|) + c.Payload(size)
  }

  function EncodeChunks(cs: seq<Chunk>, size: nat): seq<byte>
    requires AllEncodable(cs, size)
  {
    if cs == [] then [] else EncodeChunk(cs[0], size) + EncodeChunks(cs[1..], size)
  }

  lemma EncodeChunksCons(cs: seq<Chunk>, size: nat)
    requires AllEncodable(cs, size) && cs != []
    ensures cs[0].Encodable(size) && AllEncodable(cs[1..], size)
    ensures EncodeChunks(cs, size) == EncodeChunk(cs[0], size) + EncodeChunks(cs[1..], size)
  {
  }

  function FileHeader(size: nat, total: nat, chunks: nat): (r: seq<byte>)
    requires size < TWO_32 && total < TWO_32 && chunks < TWO_32
    ensures |r| == FILE_HEADER_SIZE
  {
    Put32(SPARSE_MAGIC) + Put16(1) + Put16(0) + Put16(FILE_HEADER_SIZE) + Put16(CHUNK_HEADER_SIZE)
    + Put32(size) + Put32(total) + Put32(chunks) + Put32(0)
  }

  function Encode(cs: seq<Chunk>, size: nat, total: nat): seq<byte>
    requires AllEncodable(cs, size) && size < TWO_32 && total < TWO_32 && |cs| < TWO_32
  {
    FileHeader(size, total, |cs|) + EncodeChunks(cs, size)
  }

  /** The blocks of the plain image, and the plain image itself. */
  function AllBlocks(cs: seq<Chunk>, size: nat): seq<seq<byte>>
    requires AllEncodable(cs, size)
  {
    if cs == [] then [] else cs[0].Expanded(size) + AllBlocks(cs[1..], size)
  }

  function Image(cs: seq<Chunk>, size: nat): seq<byte>
    requires AllEncodable(cs, size)
  {
    Concat(AllBlocks(cs, size))
  }

  /** The index entry of a chunk whose header stands at `offset`. */
  function EntryOf(c: Chunk, offset: nat, start: nat): SparseChunk {
    SparseChunk(start, c.Count(), c.Type(), if c.Fill? then c.word else 0, offset + CHUNK_HEADER_SIZE)
  }

  /** The index entries a chunk list should get when its first header is written at `offset`. */
  function IndexOf(cs: seq<Chunk>, size: nat, offset: nat, start: nat): seq<SparseChunk>
    requires AllEncodable(cs, size)
  {
    if cs == [] then []
    else
      [EntryOf(cs[0], offset, start)]
      + IndexOf(cs[1..], size, offset + |EncodeChunk(cs[0], size)|, start + cs[0].Count())
  }

  lemma IndexOfCons(cs: seq<Chunk>, size: nat, offset: nat, start: nat)
    requires AllEncodable(cs, size) && cs != []
    ensures IndexOf(cs, size, offset, start)
         == [EntryOf(cs[0], offset, start)]
            + IndexOf(cs[1..], size, offset + |EncodeChunk(cs[0], size)|, start + cs[0].Count())
  {
  }

  // ---------------------------------------------------------------------------
  // Recovering the index
  // ---------------------------------------------------------------------------

  lemma HeaderRoundTrip(size: nat, total: nat, chunks: nat)
    requires size < TWO_32 && total < TWO_32 && chunks < TWO_32
    ensures ParseHeader(FileHeader(size, total, chunks))
         == SparseHeader(SPARSE_MAGIC, FILE_HEADER_SIZE, CHUNK_HEADER_SIZE, size, total, chunks)
  {
    var h := FileHeader(size, total, chunks);
    Field32(h, 0, SPARSE_MAGIC);
    Field16(h, 8, FILE_HEADER_SIZE);
    Field16(h, 10, CHUNK_HEADER_SIZE);
    Field32(h, 12, size);
    Field32(h, 16, total);
    Field32(h, 20, chunks);
  }

  lemma ChunkHeaderRoundTrip(c: Chunk, size: nat)
    requires c.Encodable(size)
    ensures ParseChunkHeader(EncodeChunk(c, size)[..CHUNK_HEADER_SIZE])
         == ChunkHeader(c.Type(), c.Count(), |EncodeChunk(c, size)|)
    ensures EncodeChunk(c, size)[CHUNK_HEADER_SIZE..] == c.Payload(size)
  {
    var e := EncodeChunk(c, size);
    var h := e[..CHUNK_HEADER_SIZE];
    Field16(h, 0, c.Type());
    Field32(h, 4, c.Count());
    Field32(h, 8, |e|);
  }

  /** One step of the scan over what was written: the header and its index entry. */
  lemma ChunkEntry(c: Chunk, size: nat, hdr: SparseHeader, file: seq<byte>, offset: nat, start: nat)
    requires c.Encodable(size) && hdr.chunkHdrSz == CHUNK_HEADER_SIZE
    requires Holds(file, offset, EncodeChunk(c, size))
    ensures var head := Pread(file, CHUNK_HEADER_SIZE, offset);
            && head.Some?
            && var h := ParseChunkHeader(head.value);
               h.totalSz == |EncodeChunk(c, size)| && h.chunkSz == c.Count()
               && ChunkAt(file, hdr, h, offset, start) == EntryOf(c, offset, start)
  {
    var e := EncodeChunk(c, size);
    assert file[offset..offset + CHUNK_HEADER_SIZE] == file[offset..offset + |e|][..CHUNK_HEADER_SIZE];
    ChunkHeaderRoundTrip(c, size);
    if c.Fill? {
      var at := offset + CHUNK_HEADER_SIZE;
      assert file[at..at + 4] == file[offset..offset + |e|][CHUNK_HEADER_SIZE..] == Put32(c.word);
      Field32(file, at, c.word);
    }
  }

  lemma ScanOne(c: Chunk, size: nat, hdr: SparseHeader, file: seq<byte>, n: nat, offset: nat, start: nat,
                tail: seq<SparseChunk>)
    requires c.Encodable(size) && hdr.chunkHdrSz == CHUNK_HEADER_SIZE && n > 0
    requires Holds(file, offset, EncodeChunk(c, size))
    requires Scan(file, hdr, n - 1, offset + |EncodeChunk(c, size)|, start + c.Count()) == Some(tail)
    ensures Scan(file, hdr, n, offset, start) == Some([EntryOf(c, offset, start)] + tail)
  {
    ChunkEntry(c, size, hdr, file, offset, start);
    ScanStep(file, hdr, n, offset, start, ParseChunkHeader(Pread(file, CHUNK_HEADER_SIZE, offset).value), tail);
  }

  lemma ScanNext(cs: seq<Chunk>, size: nat, hdr: SparseHeader, file: seq<byte>, offset: nat, start: nat, e: nat)
    requires AllEncodable(cs, size) && cs != [] && hdr.chunkHdrSz == CHUNK_HEADER_SIZE
    requires e == |EncodeChunk(cs[0], size)| && Holds(file, offset, EncodeChunk(cs[0], size))
    requires Scan(file, hdr, |cs| - 1, offset + e, start + cs[0].Count())
          == Some(IndexOf(cs[1..], size, offset + e, start + cs[0].Count()))
    ensures Scan(file, hdr, |cs|, offset, start) == Some(IndexOf(cs, size, offset, start))
  {
    hide Scan, IndexOf, EncodeChunk;
    ScanOne(cs[0], size, hdr, file, |cs|, offset, start, IndexOf(cs[1..], size, offset + e, start + cs[0].Count()));
    IndexOfCons(cs, size, offset, start);
  }

  lemma NothingScanned(size: nat, hdr: SparseHeader, file: seq<byte>, offset: nat, start: nat)
    ensures AllEncodable([], size)
    ensures Scan(file, hdr, 0, offset, start) == Some(IndexOf([], size, offset, start))
  {
  }

  /** Indexing what was written recovers every chunk's start, length, type, fill word and data offset. */
  lemma {:induction false} ScanRecovers(cs: seq<Chunk>, size: nat, hdr: SparseHeader, file: seq<byte>,
                                        offset: nat, start: nat)
    requires AllEncodable(cs, size) && hdr.chunkHdrSz == CHUNK_HEADER_SIZE
    requires Holds(file, offset, EncodeChunks(cs, size))
    ensures Scan(file, hdr, |cs|, offset, start) == Some(IndexOf(cs, size, offset, start))
  {
    hide *;
    if cs == [] {
      NothingScanned(size, hdr, file, offset, start);
    } else {
      EncodeChunksCons(cs, size);
      var e := |EncodeChunk(cs[0], size)|;
      HoldsParts(file, offset, EncodeChunk(cs[0], size), EncodeChunks(cs[1..], size));
      ScanRecovers(cs[1..], size, hdr, file, offset + e, start + cs[0].Count());
      ScanNext(cs, size, hdr, file, offset, start, e);
    }
  }

  // ---------------------------------------------------------------------------
  // The expansion of the index is the plain image
  // ---------------------------------------------------------------------------

  function Readable(bs: seq<seq<byte>>): seq<Option<seq<byte>>> {
    seq(|bs|, i requires 0 <= i < |bs| => Some(bs[i]))
  }

  lemma PreadPart(file: seq<byte>, at: nat, p: seq<byte>, from: nat, size: nat)
    requires Holds(file, at, p) && from + size <= |p| < TWO_32
    ensures Pread(file, size, at + OffT(from)) == Some(p[from..from + size])
  {
    OffTExact(from);
    if size == 0 {
      assert p[from..from] == [];
    }
    SubSlice(file, at, |p|, from, from + size);
  }

  lemma RawPayload(c: Chunk, size: nat, file: seq<byte>, at: nat, k: nat)
    requires c.RawData? && c.Encodable(size) && k < |c.blocks| && Holds(file, at, Concat(c.blocks))
    ensures Pread(file, size, at + OffT(k * size)) == Some(c.blocks[k])
  {
    ConcatBlock(c.blocks, size, k);
    PreadPart(file, at, Concat(c.blocks), k * size, size);
  }

  lemma PayloadHeld(c: Chunk, size: nat, file: seq<byte>, offset: nat)
    requires c.Encodable(size) && Holds(file, offset, EncodeChunk(c, size))
    ensures Holds(file, offset + CHUNK_HEADER_SIZE, c.Payload(size))
  {
    var e := EncodeChunk(c, size);
    ChunkHeaderRoundTrip(c, size);
    var at := offset + CHUNK_HEADER_SIZE;
    assert file[at..at + |c.Payload(size)|] == file[offset..offset + |e|][CHUNK_HEADER_SIZE..];
  }

  /** A chunk's index entry expands to the chunk's blocks. */
  lemma EntryExpands(c: Chunk, size: nat, file: seq<byte>, offset: nat, start: nat)
    requires c.Encodable(size) && size > 0 && Holds(file, offset, EncodeChunk(c, size))
    ensures EntryOf(c, offset, start).fillVal < TWO_32
    ensures seq(c.Count(), k requires 0 <= k => ChunkBlock(file, size, EntryOf(c, offset, start), k))
         == Readable(c.Expanded(size))
  {
    hide EncodeChunk, ChunkBlock, Holds;
    forall k: nat | k < c.Count()
      ensures ChunkBlock(file, size, EntryOf(c, offset, start), k) == Some(c.Expanded(size)[k])
    {
      EntryBlock(c, size, file, offset, start, k);
    }
  }

  lemma EntryBlock(c: Chunk, size: nat, file: seq<byte>, offset: nat, start: nat, k: nat)
    requires c.Encodable(size) && size > 0 && Holds(file, offset, EncodeChunk(c, size)) && k < c.Count()
    ensures EntryOf(c, offset, start).fillVal < TWO_32
    ensures ChunkBlock(file, size, EntryOf(c, offset, start), k) == Some(c.Expanded(size)[k])
  {
    hide EncodeChunk, Holds, Pread, OffT, FillBlock, Zeros, Concat;
    if c.RawData? {
      PayloadHeld(c, size, file, offset);
      RawPayload(c, size, file, offset + CHUNK_HEADER_SIZE, k);
    }
  }

  lemma LinearNext(cs: seq<Chunk>, size: nat, file: seq<byte>, offset: nat, start: nat, index: seq<SparseChunk>)
    requires AllEncodable(cs, size) && size > 0 && cs != []
    requires Holds(file, offset, EncodeChunk(cs[0], size))
    requires index == IndexOf(cs[1..], size, offset + |EncodeChunk(cs[0], size)|, start + cs[0].Count())
    requires WellFormedIndex(index) && Linear(file, size, index) == Readable(AllBlocks(cs[1..], size))
    ensures WellFormedIndex(IndexOf(cs, size, offset, start))
    ensures Linear(file, size, IndexOf(cs, size, offset, start)) == Readable(AllBlocks(cs, size))
  {
    hide EncodeChunk, ChunkBlock, Linear, Readable, IndexOf;
    IndexOfCons(cs, size, offset, start);
    EntryExpands(cs[0], size, file, offset, start);
    LinearCons(file, size, EntryOf(cs[0], offset, start), index);
    ReadableAppend(cs[0].Expanded(size), AllBlocks(cs[1..], size));
  }

  lemma {:induction false} LinearIsImage(cs: seq<Chunk>, size: nat, file: seq<byte>, offset: nat, start: nat)
    requires AllEncodable(cs, size) && size > 0
    requires Holds(file, offset, EncodeChunks(cs, size))
    ensures WellFormedIndex(IndexOf(cs, size, offset, start))
    ensures Linear(file, size, IndexOf(cs, size, offset, start)) == Readable(AllBlocks(cs, size))
  {
    if cs != [] {
      hide *;
      EncodeChunksCons(cs, size);
      var e := |EncodeChunk(cs[0], size)|;
      HoldsParts(file, offset, EncodeChunk(cs[0], size), EncodeChunks(cs[1..], size));
      LinearIsImage(cs[1..], size, file, offset + e, start + cs[0].Count());
      LinearNext(cs, size, file, offset, start, IndexOf(cs[1..], size, offset + e, start + cs[0].Count()));
    }
  }

  lemma ReadableAppend(xs: seq<seq<byte>>, ys: seq<seq<byte>>)
    ensures Readable(xs + ys) == Readable(xs) + Readable(ys)
  {
  }

  lemma {:induction false} AllBlocksSized(cs: seq<Chunk>, size: nat)
    requires AllEncodable(cs, size)
    ensures AllSized(AllBlocks(cs, size), size)
  {
    if cs != [] {
      AllBlocksSized(cs[1..], size);
    }
  }

  lemma OffTCases(x: nat)
    requires x < TWO_64
    ensures OffT(x) == x || OffT(x) < 0
  {
  }

  /** A raw device on a plain image serves exactly the whole blocks of the image below its total. */
  lemma RawReadIsImage(bs: seq<seq<byte>>, size: nat, total: nat, b: nat)
    requires 0 < size < TWO_32 && total < TWO_32 && AllSized(bs, size)
    requires |Concat(bs)| < TWO_63
    ensures Block(RawView(Concat(bs), size, total), b)
         == if b < total && b < |bs| then Some(bs[b]) else None
  {
    if b < total {
      MulMono(b, TWO_32 - 1, size);
      MulMono(size, TWO_32 - 1, TWO_32 - 1);
      OffTCases(b * size);
      ConcatLength(bs, size);
      if b < |bs| {
        ConcatBlock(bs, size, b);
        OffTExact(b * size);
      } else {
        MulMono(|bs|, b, size);
      }
    }
  }

  /** Opening an encoded image succeeds, and a reader sees on the sparse device the very disk it would
      see on the raw device over the expanded image, failures included, whatever the declared total.
      The expanded image must be short enough to be a file (its size is an off_t). */
  lemma SparseIsRaw(cs: seq<Chunk>, size: nat, total: nat)
    requires AllEncodable(cs, size) && 0 < size < TWO_32 && total < TWO_32 && |cs| < TWO_32
    requires size % 4 == 0 && |Image(cs, size)| < TWO_63
    ensures var v := OpenSparse(Encode(cs, size, total));
            v.Some? && ValidView(v.value)
            && DiskOf(v.value) == DiskOf(RawView(Image(cs, size), size, total))
  {
    var file := Encode(cs, size, total);
    var h := FileHeader(size, total, |cs|);
    HeaderRoundTrip(size, total, |cs|);
    assert file[..FILE_HEADER_SIZE] == h;
    var hdr := ParseHeader(h);
    ScanRecovers(cs, size, hdr, file, FILE_HEADER_SIZE, 0);
    LinearIsImage(cs, size, file, FILE_HEADER_SIZE, 0);
    ScanTiles(file, hdr, |cs|, FILE_HEADER_SIZE, 0);
    AllBlocksSized(cs, size);
    var v := OpenSparse(file).value;
    assert v == SparseView(file, size, total, IndexOf(cs, size, FILE_HEADER_SIZE, 0));
    hide OpenSparse, Encode, EncodeChunks, IndexOf, Scan, Linear, Tiles, AllBlocks, Concat, ReadInto;
    forall b: nat | b < total
      ensures Block(v, b) == Block(RawView(Image(cs, size), size, total), b)
    {
      SparseReadIsLinear(v, b, Zeros(size));
      RawReadIsImage(AllBlocks(cs, size), size, total, b);
    }
  }

  // ---------------------------------------------------------------------------
  // An image, byte by byte
  // ---------------------------------------------------------------------------

  /** A sparse file with one chunk of each kind: two data blocks of four bytes, a filled block, a block
      nobody cares about and a checksum. */
  const SAMPLE: seq<byte> :=
    [0x3A, 0xFF, 0x26, 0xED, 1, 0, 0, 0, 28, 0, 12, 0, 4, 0, 0, 0, 4, 0, 0, 0, 4, 0, 0, 0, 0, 0, 0, 0]
    + ([0xC1, 0xCA, 0, 0, 2, 0, 0, 0, 20, 0, 0, 0, 1, 2, 3, 4, 5, 6, 7, 8]
       + ([0xC2, 0xCA, 0, 0, 1, 0, 0, 0, 16, 0, 0, 0, 0xEF, 0xBE, 0xAD, 0xDE]
          + ([0xC3, 0xCA, 0, 0, 1, 0, 0, 0, 12, 0, 0, 0]
             + [0xC4, 0xCA, 0, 0, 0, 0, 0, 0, 16, 0, 0, 0, 9, 9, 9, 9])))

  function SampleChunks(): (cs: seq<Chunk>)
    ensures |cs| == 4 && AllEncodable(cs, 4)
  {
    ConcatLength([[1, 2, 3, 4], [5, 6, 7, 8]], 4);
    [RawData([[1, 2, 3, 4], [5, 6, 7, 8]]), Fill(0xDEAD_BEEF, 1), DontCare(1), Crc(0x0909_0909)]
  }

  lemma SampleHeader()
    ensures FileHeader(4, 4, 4)
         == [0x3A, 0xFF, 0x26, 0xED, 1, 0, 0, 0, 28, 0, 12, 0, 4, 0, 0, 0, 4, 0, 0, 0, 4, 0, 0, 0, 0, 0, 0, 0]
  {
    assert Put32(SPARSE_MAGIC) == [0x3A, 0xFF, 0x26, 0xED];
    assert Put32(4) == [4, 0, 0, 0] && Put32(0) == [0, 0, 0, 0];
    assert Put16(1) == [1, 0] && Put16(0) == [0, 0] && Put16(28) == [28, 0] && Put16(12) == [12, 0];
    hide Put16, Put32;
  }

  lemma SampleRaw()
    ensures SampleChunks()[0].Encodable(4)
    ensures EncodeChunk(SampleChunks()[0], 4)
         == [0xC1, 0xCA, 0, 0, 2, 0, 0, 0, 20, 0, 0, 0, 1, 2, 3, 4, 5, 6, 7, 8]
  {
    var bs: seq<seq<byte>> := [[1, 2, 3, 4], [5, 6, 7, 8]];
    assert bs[1..] == [[5, 6, 7, 8]] && bs[1..][1..] == [];
    assert Concat(bs[1..]) == [5, 6, 7, 8] + Concat([]) == [5, 6, 7, 8];
    assert Concat(bs) == [1, 2, 3, 4, 5, 6, 7, 8];
    assert Put16(CHUNK_TYPE_RAW) == [0xC1, 0xCA] && Put16(0) == [0, 0];
    assert Put32(2) == [2, 0, 0, 0] && Put32(20) == [20, 0, 0, 0];
    hide Put16, Put32, Concat;
  }

  lemma SampleOthers()
    ensures SampleChunks()[1].Encodable(4) && SampleChunks()[2].Encodable(4) && SampleChunks()[3].Encodable(4)
    ensures EncodeChunk(SampleChunks()[1], 4) == [0xC2, 0xCA, 0, 0, 1, 0, 0, 0, 16, 0, 0, 0, 0xEF, 0xBE, 0xAD, 0xDE]
    ensures EncodeChunk(SampleChunks()[2], 4) == [0xC3, 0xCA, 0, 0, 1, 0, 0, 0, 12, 0, 0, 0]
    ensures EncodeChunk(SampleChunks()[3], 4) == [0xC4, 0xCA, 0, 0, 0, 0, 0, 0, 16, 0, 0, 0, 9, 9, 9, 9]
  {
    assert Put16(CHUNK_TYPE_FILL) == [0xC2, 0xCA] && Put16(CHUNK_TYPE_DONT_CARE) == [0xC3, 0xCA];
    assert Put16(CHUNK_TYPE_CRC32) == [0xC4, 0xCA] && Put16(0) == [0, 0];
    assert Put32(0) == [0, 0, 0, 0] && Put32(1) == [1, 0, 0, 0] && Put32(12) == [12, 0, 0, 0];
    assert Put32(16) == [16, 0, 0, 0] && Put32(0xDEAD_BEEF) == [0xEF, 0xBE, 0xAD, 0xDE];
    assert Put32(0x0909_0909) == [9, 9, 9, 9];
    hide Put16, Put32;
  }

  lemma SampleIsEncoded()
    ensures Encode(SampleChunks(), 4, 4) == SAMPLE
  {
    var cs := SampleChunks();
    SampleHeader();
    SampleRaw();
    SampleOthers();
    hide EncodeChunk, FileHeader, SampleChunks;
    EncodeChunksCons(cs, 4);
    EncodeChunksCons(cs[1..], 4);
    EncodeChunksCons(cs[2..], 4);
    EncodeChunksCons(cs[3..], 4);
    assert cs[1..][1..] == cs[2..] && cs[2..][1..] == cs[3..] && cs[3..][1..] == [];
    assert EncodeChunks(cs[3..], 4) == EncodeChunk(cs[3], 4) by { assert EncodeChunks([], 4) == []; }
    hide EncodeChunks;
  }

  lemma SampleBlocks()
    ensures AllBlocks(SampleChunks(), 4) == [[1, 2, 3, 4], [5, 6, 7, 8], [0xEF, 0xBE, 0xAD, 0xDE], [0, 0, 0, 0]]
  {
    var cs := SampleChunks();
    assert Put32(0xDEAD_BEEF) == [0xEF, 0xBE, 0xAD, 0xDE];
    assert FillBlock(0xDEAD_BEEF, 4) == [0xEF, 0xBE, 0xAD, 0xDE] && Zeros(4) == [0, 0, 0, 0];
    assert cs[1].Expanded(4) == [[0xEF, 0xBE, 0xAD, 0xDE]] && cs[2].Expanded(4) == [[0, 0, 0, 0]];
    assert cs[1..][1..] == cs[2..] && cs[2..][1..] == cs[3..] && cs[3..][1..] == [];
    assert AllBlocks([], 4) == [] && AllBlocks(cs[3..], 4) == [];
    assert AllBlocks(cs[2..], 4) == [[0, 0, 0, 0]];
    assert AllBlocks(cs[1..], 4) == [[0xEF, 0xBE, 0xAD, 0xDE], [0, 0, 0, 0]];
  }

  /** Opening the sample shows its four blocks. */
  lemma SampleReads()
    ensures var v := OpenSparse(SAMPLE);
            && v.Some? && ValidView(v.value)
            && DiskOf(v.value) == Disk(4, [Some([1, 2, 3, 4]), Some([5, 6, 7, 8]), Some([0xEF, 0xBE, 0xAD, 0xDE]),
                                           Some([0, 0, 0, 0])])
  {
    SampleIsEncoded();
    SampleBlocks();
    hide SampleChunks, AllBlocks, Encode, OpenSparse, Block, ReadInto, Concat;
    var bs: seq<seq<byte>> := [[1, 2, 3, 4], [5, 6, 7, 8], [0xEF, 0xBE, 0xAD, 0xDE], [0, 0, 0, 0]];
    ConcatLength(bs, 4);
    SparseIsRaw(SampleChunks(), 4, 4);
    var raw := RawView(Concat(bs), 4, 4);
    RawReadIsImage(bs, 4, 4, 0);
    RawReadIsImage(bs, 4, 4, 1);
    RawReadIsImage(bs, 4, 4, 2);
    RawReadIsImage(bs, 4, 4, 3);
    assert DiskOf(raw).blocks == [Some(bs[0]), Some(bs[1]), Some(bs[2]), Some(bs[3])];
  }

  /** A file of one four-byte data block whose header declares other lengths for itself and for chunk
      headers, with the additional bytes behind the fields. */
  function LongHeaders(fh: nat, ch: nat, more: seq<byte>, extra: seq<byte>, block: seq<byte>): seq<byte>
    requires fh < TWO_16 && ch < TWO_16 && |block| == 4
  {
    LongHead(fh, ch) + (more + (LongChunk(ch) + (extra + block)))
  }

  function LongHead(fh: nat, ch: nat): (h: seq<byte>)
    requires fh < TWO_16 && ch < TWO_16
    ensures |h| == 28
  {
    Put32(0xED26FF3A) + Put16(1) + Put16(0) + Put16(fh) + Put16(ch) + Put32(4) + Put32(1) + Put32(1) + Put32(0)
  }

  function LongChunk(ch: nat): (h: seq<byte>)
    requires ch < TWO_16
    ensures |h| == 12
  {
    Put16(0xCAC1) + Put16(0) + Put32(1) + Put32(ch + 4)
  }

  /** The declared lengths are honoured: the chunk is found behind the whole file header and its data
      behind the whole chunk header. */
  lemma LongHeadersRead(fh: nat, ch: nat, more: seq<byte>, extra: seq<byte>, block: seq<byte>)
    requires 28 <= fh < TWO_16 && 12 <= ch < TWO_16 && |more| == fh - 28 && |extra| == ch - 12 && |block| == 4
    ensures OpenSparse(LongHeaders(fh, ch, more, extra, block))
         == Some(SparseView(LongHeaders(fh, ch, more, extra, block), 4, 1, [SparseChunk(0, 1, 0xCAC1, 0, fh + ch)]))
    ensures var v := OpenSparse(LongHeaders(fh, ch, more, extra, block)).value;
            ValidView(v) && Block(v, 0) == Some(block)
  {
    var file, head, chunk := LongHeaders(fh, ch, more, extra, block), LongHead(fh, ch), LongChunk(ch);
    LongSlices(head, more, chunk, extra, block);
    LongHeadFields(fh, ch);
    LongChunkFields(ch);
    hide LongHead, LongChunk, ParseHeader, ParseChunkHeader, Put32, Put16;
    var hdr, h := ParseHeader(head), ParseChunkHeader(chunk);
    ScanEnd(file, hdr, fh + h.totalSz, h.chunkSz);
    ScanStep(file, hdr, 1, fh, 0, h, []);
    assert [ChunkAt(file, hdr, h, fh, 0)] + [] == [SparseChunk(0, 1, 0xCAC1, 0, fh + ch)];
    OneRawBlock(file, fh + ch, block);
  }

  lemma OneRawBlock(file: seq<byte>, at: nat, block: seq<byte>)
    requires |block| == 4 && Pread(file, 4, at) == Some(block)
    ensures var v := SparseView(file, 4, 1, [SparseChunk(0, 1, 0xCAC1, 0, at)]);
            ValidView(v) && Block(v, 0) == Some(block)
  {
    var v := SparseView(file, 4, 1, [SparseChunk(0, 1, 0xCAC1, 0, at)]);
    assert v.chunks[1..] == [] && UpperBound([], 0) == 0 && UpperBound(v.chunks, 0) == 1;
    OffTExact(0);
    assert ChunkBlock(file, 4, v.chunks[0], 0) == Pread(file, 4, at + 0);
    assert ChunkBlockInto(file, v.chunks[0], 0, Zeros(4)) == Some(block);
    assert ReadInto(v, 0, Zeros(4)) == Some(block);
  }

  lemma LongSlices(head: seq<byte>, more: seq<byte>, chunk: seq<byte>, extra: seq<byte>, block: seq<byte>)
    requires |head| == 28 && |chunk| == 12 && |block| == 4
    ensures var file, fh := head + (more + (chunk + (extra + block))), 28 + |more|;
            && Pread(file, 28, 0) == Some(head) && Pread(file, 12, fh) == Some(chunk)
            && Pread(file, 4, fh + 12 + |extra|) == Some(block)
  {
    var file, fh := head + (more + (chunk + (extra + block))), 28 + |more|;
    assert file[0..28] == head && file[fh..fh + 12] == chunk;
    assert file[fh + 12 + |extra|..fh + 12 + |extra| + 4] == block;
  }

  lemma LongHeadFields(fh: nat, ch: nat)
    requires fh < TWO_16 && ch < TWO_16
    ensures ParseHeader(LongHead(fh, ch)) == SparseHeader(0xED26FF3A, fh, ch, 4, 1, 1)
  {
    var h := LongHead(fh, ch);
    assert h[0..4] == Put32(0xED26FF3A) && h[8..10] == Put16(fh) && h[10..12] == Put16(ch);
    assert h[12..16] == Put32(4) && h[16..20] == Put32(1) == h[20..24];
    hide Put16, Put32, LongHead, LE16, LE32;
    Field32(h, 0, 0xED26FF3A);
    Field16(h, 8, fh);
    Field16(h, 10, ch);
    Field32(h, 12, 4);
    Field32(h, 16, 1);
    Field32(h, 20, 1);
  }

  lemma LongChunkFields(ch: nat)
    requires ch < TWO_16
    ensures ParseChunkHeader(LongChunk(ch)) == ChunkHeader(0xCAC1, 1, ch + 4)
  {
    var h := LongChunk(ch);
    assert h[0..2] == Put16(0xCAC1) && h[4..8] == Put32(1) && h[8..12] == Put32(ch + 4);
    hide Put16, Put32, LongChunk, LE16, LE32;
    Field16(h, 0, 0xCAC1);
    Field32(h, 4, 1);
    Field32(h, 8, ch + 4);
  }

  // ---------------------------------------------------------------------------
  // Range reads
  // ---------------------------------------------------------------------------

  /** The blocks of a range are all readable. */
  predicate RangeReadable(v: DeviceView, start: nat, count: nat)
    requires ValidView(v)
  {
    forall b: nat :: start <= b < start + count ==> Block(v, b).Some?
  }

  function RangeBlocks(v: DeviceView, start: nat, count: nat): (r: seq<seq<byte>>)
    requires ValidView(v) && RangeReadable(v, start, count)
    ensures AllSized(r, v.blockSize)
  {
    seq(count, i requires 0 <= i < count => Block(v, start + i).value)
  }

  lemma RangeDone(v: DeviceView, start: nat, count: nat, buf: seq<byte>)
    requires ValidView(v) && count * v.blockSize == |buf|
    ensures ReadRange(v, start, count, count, buf)
         == Some(buf[..|buf|] + Concat(RangeBlocks(v, start + count, count - count)))
  {
    assert RangeBlocks(v, start + count, 0) == [];
    assert buf[..|buf|] + [] == buf;
  }

  lemma BelowTotal(v: DeviceView, b: nat)
    requires ValidView(v) && Block(v, b).Some?
    ensures b < v.totalBlocks && |Block(v, b).value| == v.blockSize
  {
  }

  lemma RangeNext(v: DeviceView, start: nat, i: nat, count: nat, buf: seq<byte>, at: nat, x: seq<byte>, tail: seq<byte>)
    requires ValidView(v) && v.blockSize % 4 == 0 && i < count && count * v.blockSize <= |buf|
    requires at == i * v.blockSize < TWO_32 && start + i < TWO_64 && at + v.blockSize <= |buf|
    requires Block(v, start + i) == Some(x)
    requires ReadRange(v, start, i + 1, count, Splice(buf, at, x)) == Some(buf[..at] + x + tail)
    ensures ReadRange(v, start, i, count, buf) == Some(buf[..at] + (x + tail))
  {
    ReadIntoIsBlock(v, start + i, buf[at..at + v.blockSize]);
    RangeStep(v, start, i, count, buf, at, x);
    Assoc(buf[..at], x, tail);
  }

  /** While no store offset wraps, block i and those after it are stored behind what is there. */
  lemma {:induction false} RangeFrom(v: DeviceView, start: nat, i: nat, count: nat, buf: seq<byte>, at: nat)
    requires ValidView(v) && v.blockSize % 4 == 0 && i <= count && count * v.blockSize == |buf|
    requires RangeReadable(v, start, count)
    requires count > 0 ==> (count - 1) * v.blockSize < TWO_32
    requires at == i * v.blockSize <= |buf|
    ensures ReadRange(v, start, i, count, buf)
         == Some(buf[..at] + Concat(RangeBlocks(v, start + i, count - i)))
    decreases count - i
  {
    hide ReadRange, Block, Concat;
    if i < count {
      OffsetInBuffer(i, count, v.blockSize);
      MulMono(i, count - 1, v.blockSize);
      BelowTotal(v, start + i);
      var x := Block(v, start + i).value;
      var next := Splice(buf, at, x);
      assert at + v.blockSize == (i + 1) * v.blockSize;
      RangeFrom(v, start, i + 1, count, next, at + v.blockSize);
      assert next[..at + v.blockSize] == buf[..at] + x;
      RangeUncons(v, start + i, count - i);
      RangeNext(v, start, i, count, buf, at, x, Concat(RangeBlocks(v, start + (i + 1), count - (i + 1))));
    } else {
      RangeDone(v, start, count, buf);
    }
  }

  lemma RangeUncons(v: DeviceView, start: nat, count: nat)
    requires ValidView(v) && count > 0 && RangeReadable(v, start, count)
    ensures RangeReadable(v, start + 1, count - 1)
    ensures Concat(RangeBlocks(v, start, count))
         == Block(v, start).value + Concat(RangeBlocks(v, start + 1, count - 1))
  {
    assert RangeBlocks(v, start, count)[1..] == RangeBlocks(v, start + 1, count - 1);
  }

  /** A store never reaches a byte at or beyond 2^32 + size - 1. */
  lemma {:induction false} TailUntouched(v: DeviceView, start: nat, i: nat, count: nat, buf: seq<byte>, p: nat)
    requires ValidView(v) && i <= count && count * v.blockSize <= |buf|
    requires TWO_32 + v.blockSize - 1 <= p < |buf|
    ensures var r := ReadRange(v, start, i, count, buf); r.Some? ==> r.value[p] == buf[p]
    decreases count - i
  {
    if i < count {
      hide ReadRange, ReadInto, ValidView, Splice;
      RangeUnfold(v, start, i, count, buf);
      var at := i * v.blockSize % TWO_32;
      var x := ReadInto(v, (start + i) % TWO_64, buf[at..at + v.blockSize]);
      if x.Some? {
        SpliceBehind(buf, at, x.value, p);
        TailUntouched(v, start, i + 1, count, Splice(buf, at, x.value), p);
      }
    }
  }

  lemma SpliceBehind(buf: seq<byte>, at: nat, x: seq<byte>, p: nat)
    requires at + |x| <= p < |buf|
    ensures |Splice(buf, at, x)| == |buf| && Splice(buf, at, x)[p] == buf[p]
  {
  }

  /** `readBlocks` delivers the concatenation of a readable range into every buffer exactly when the
      last 32-bit store offset does not wrap. */
  lemma ReadBlocksExact(v: DeviceView, start: nat, count: nat)
    requires ValidView(v) && v.blockSize > 0 && v.blockSize % 4 == 0 && RangeReadable(v, start, count)
    ensures (forall buf: seq<byte> :: |buf| == count * v.blockSize ==>
               ReadRange(v, start, 0, count, buf) == Some(Concat(RangeBlocks(v, start, count))))
            <==> (count == 0 || (count - 1) * v.blockSize < TWO_32)
  {
    assert |RangeBlocks(v, start, count)| == count;
    hide ReadRange, Concat, RangeBlocks, RangeReadable, ValidView;
    var size := v.blockSize;
    var want := Concat(RangeBlocks(v, start, count));
    ConcatLength(RangeBlocks(v, start, count), size);
    if count == 0 || (count - 1) * size < TWO_32 {
      forall buf: seq<byte> | |buf| == count * size
        ensures ReadRange(v, start, 0, count, buf) == Some(want)
      {
        RangeFrom(v, start, 0, count, buf, 0);
        assert buf[..0] + want == want;
      }
    } else {
      var buf := LastByteKept(v, start, count, want);
    }
  }

  /** When the last offset wraps, a buffer with another last byte keeps it. */
  lemma LastByteKept(v: DeviceView, start: nat, count: nat, want: seq<byte>) returns (buf: seq<byte>)
    requires ValidView(v) && v.blockSize > 0 && count > 0 && (count - 1) * v.blockSize >= TWO_32
    requires |want| == count * v.blockSize
    ensures |buf| == count * v.blockSize && ReadRange(v, start, 0, count, buf) != Some(want)
  {
    hide ReadRange, ValidView;
    var p := count * v.blockSize - 1;
    assert p == (count - 1) * v.blockSize + v.blockSize - 1;
    var last: int := want[p];
    buf := seq(count * v.blockSize, _ => (last + 1) % 256);
    TailUntouched(v, start, 0, count, buf, p);
    assert buf[p] != want[p];
  }

  /** The k-th block of a range cannot be read. */
  predicate Lost(v: DeviceView, start: nat, k: nat)
    requires ValidView(v)
  {
    Block(v, (start + k) % TWO_64) == None
  }

  /** A range read fails exactly when one of its blocks, counted in 64 bits, cannot be read. */
  lemma {:induction false} ReadBlocksFails(v: DeviceView, start: nat, i: nat, count: nat, buf: seq<byte>)
    requires ValidView(v) && v.blockSize % 4 == 0 && i <= count && count * v.blockSize <= |buf|
    ensures ReadRange(v, start, i, count, buf) == None
       <==> exists k: nat :: i <= k < count && Lost(v, start, k)
    decreases count - i
  {
    hide ReadRange, ReadInto, Block, ValidView, Splice;
    if i < count {
      RangeUnfold(v, start, i, count, buf);
      var at: nat := i * v.blockSize % TWO_32;
      var was := buf[at..at + v.blockSize];
      ReadIntoIsBlock(v, (start + i) % TWO_64, was);
      var x := ReadInto(v, (start + i) % TWO_64, was);
      if x.Some? {
        SpliceLength(buf, at, x.value);
        ReadBlocksFails(v, start, i + 1, count, Splice(buf, at, x.value));
        assert !Lost(v, start, i);
      } else {
        assert Lost(v, start, i);
      }
    } else {
      RangeOver(v, start, count, buf);
    }
  }

  lemma SpliceLength(buf: seq<byte>, at: nat, x: seq<byte>)
    requires at + |x| <= |buf|
    ensures |Splice(buf, at, x)| == |buf|
  {
  }

  lemma RangeOver(v: DeviceView, start: nat, count: nat, buf: seq<byte>)
    requires ValidView(v) && count * v.blockSize <= |buf|
    ensures ReadRange(v, start, count, count, buf) == Some(buf)
  {
  }

  /** A device of one DONT_CARE chunk, one 4096-byte block longer than 2^32 bytes. */
  function LongView(): DeviceView {
    SparseView([], 4096, 0x10_0001, [SparseChunk(0, 0x10_0001, CHUNK_TYPE_DONT_CARE, 0, 40)])
  }

  /** All of it can be read, and reading all of it leaves a buffer on which the last store wraps. */
  lemma LongRangeWraps()
    ensures var v, n := LongView(), 0x10_0001;
            && ValidView(v) && RangeReadable(v, 0, n)
            && exists buf: seq<byte> :: |buf| == n * v.blockSize
                 && ReadRange(v, 0, 0, n, buf) != Some(Concat(RangeBlocks(v, 0, n)))
  {
    var v, n := LongView(), 0x10_0001;
    assert v.chunks[1..] == [];
    forall b: nat | b < n ensures Block(v, b).Some? {
      assert UpperBound(v.chunks, b) == 1 by { assert UpperBound([], b) == 0; }
    }
    hide ReadRange, Block, Concat, RangeBlocks;
    ReadBlocksExact(v, 0, n);
  }
}
