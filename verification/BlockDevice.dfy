/** The block devices of `block_device.cpp`: a raw image file, and a sparse image read through its
    chunk index. The virtual interface is the closed sum `IBlockDevice`. */
module BlockDevice {
  import opened Bytes
  import opened SparseImage

  /** pread into buffer[at..at + n]; the result is the byte count, or -1 at a negative offset. */
  method PreadInto(file: seq<byte>, buffer: array<byte>, at: nat, n: nat, offset: int) returns (got: int)
    requires at + n <= buffer.Length
    modifies buffer
    ensures got == n <==> Pread(file, n, offset).Some?
    ensures got == n ==> buffer[..] == Splice(old(buffer[..]), at, Pread(file, n, offset).value)
    ensures buffer[..at] == old(buffer[..at]) && buffer[at + n..] == old(buffer[at + n..])
  {
    if offset < 0 {
      return -1;
    }
    got := if |file| <= offset then 0 else if |file| - offset < n then |file| - offset else n;
    forall j | 0 <= j < got {
      buffer[at + j] := file[offset + j];
    }
    if got == n {
      assert buffer[..] == Splice(old(buffer[..]), at, Pread(file, n, offset).value);
    }
  }

  class RawBlockDevice {
    const file: seq<byte>
    const blockSize: nat
    const totalBlocks: nat

    constructor (file: seq<byte>, blockSize: nat, totalBlocks: nat)
      ensures this.file == file && this.blockSize == blockSize && this.totalBlocks == totalBlocks
    {
      this.file, this.blockSize, this.totalBlocks := file, blockSize, totalBlocks;
    }

    function View(): DeviceView {
      RawView(file, blockSize, totalBlocks)
    }

    method ReadBlock(blockNum: nat, buffer: array<byte>, at: nat) returns (ok: bool)
      requires ValidView(View()) && at + blockSize <= buffer.Length
      modifies buffer
      ensures ok <==> ReadInto(View(), blockNum, old(buffer[at..at + blockSize])).Some?
      ensures ok ==> buffer[..] == Splice(old(buffer[..]), at,
                                          ReadInto(View(), blockNum, old(buffer[at..at + blockSize])).value)
      ensures buffer[..at] == old(buffer[..at]) && buffer[at + blockSize..] == old(buffer[at + blockSize..])
    {
      if blockNum >= totalBlocks {
        return false;
      }
      var bytes := PreadInto(file, buffer, at, blockSize, OffT(blockNum * blockSize));
      return bytes == blockSize;
    }
  }

  class SparseBlockDevice {
    const file: seq<byte>
    const blockSize: nat
    const totalBlocks: nat
    var chunks: seq<SparseChunk>

    constructor (file: seq<byte>, blockSize: nat, totalBlocks: nat)
      ensures this.file == file && this.blockSize == blockSize && this.totalBlocks == totalBlocks
      ensures chunks == []
    {
      this.file, this.blockSize, this.totalBlocks := file, blockSize, totalBlocks;
      chunks := [];
    }

    function View(): DeviceView
      reads this
    {
      SparseView(file, blockSize, totalBlocks, chunks)
    }

    /** Opens a sparse image: refused without the magic or when a chunk header is cut off. */
    static method Create(file: seq<byte>) returns (dev: SparseBlockDevice?)
      ensures dev == null <==> OpenSparse(file) == None
      ensures dev != null ==> fresh(dev) && dev.View() == OpenSparse(file).value && ValidView(dev.View())
    {
      var b := Pread(file, FILE_HEADER_SIZE, 0);
      if b == None || ParseHeader(b.value).magic != SPARSE_MAGIC {
        return null;
      }
      var hdr := ParseHeader(b.value);
      var d := new SparseBlockDevice(file, hdr.blkSz, hdr.totalBlks);
      var ok := d.BuildIndex();
      if !ok {
        return null;
      }
      ScanTiles(file, hdr, hdr.totalChunks, hdr.fileHdrSz, 0);
      dev := d;
    }

    method BuildIndex() returns (ok: bool)
      requires chunks == []
      modifies this`chunks
      ensures ok <==> Pread(file, FILE_HEADER_SIZE, 0).Some?
                      && var hdr := ParseHeader(Pread(file, FILE_HEADER_SIZE, 0).value);
                         Scan(file, hdr, hdr.totalChunks, hdr.fileHdrSz, 0).Some?
      ensures ok ==> var hdr := ParseHeader(Pread(file, FILE_HEADER_SIZE, 0).value);
                     chunks == Scan(file, hdr, hdr.totalChunks, hdr.fileHdrSz, 0).value
    {
      hide Scan, ParseHeader, Pread;
      var b := Pread(file, FILE_HEADER_SIZE, 0);
      if b == None {
        return false;
      }
      ok := IndexChunks(ParseHeader(b.value));
    }

    /** The loop over the chunk headers. */
    method IndexChunks(hdr: SparseHeader) returns (ok: bool)
      requires chunks == []
      modifies this`chunks
      ensures var r := Scan(file, hdr, hdr.totalChunks, hdr.fileHdrSz, 0);
              if ok then r == Some(chunks) else r == None
    {
      hide Scan, ChunkAt, ParseChunkHeader, Pread;
      var fileOffset: nat := hdr.fileHdrSz;
      var currentVirtualBlock: nat := 0;
      ghost var whole := Scan(file, hdr, hdr.totalChunks, hdr.fileHdrSz, 0);
      assert whole.Some? ==> chunks + whole.value == whole.value;
      for i := 0 to hdr.totalChunks
        invariant IndexSoFar(whole, chunks, Scan(file, hdr, hdr.totalChunks - i, fileOffset, currentVirtualBlock))
      {
        IndexNext(whole, chunks, file, hdr, hdr.totalChunks - i, fileOffset, currentVirtualBlock);
        var c := Pread(file, CHUNK_HEADER_SIZE, fileOffset);
        if c == None {
          return false;
        }
        var chunkHdr := ParseChunkHeader(c.value);
        chunks := chunks + [ChunkAt(file, hdr, chunkHdr, fileOffset, currentVirtualBlock)];
        currentVirtualBlock := currentVirtualBlock + chunkHdr.chunkSz;
        fileOffset := fileOffset + chunkHdr.totalSz;
      }
      ScanEnd(file, hdr, fileOffset, currentVirtualBlock);
      assert chunks + [] == chunks;
      return true;
    }

    /** std::upper_bound over the chunk starts. */
    method FindUpperBound(b: nat) returns (i: nat)
      requires Tiles(chunks, 0)
      ensures i == UpperBound(chunks, b)
    {
      i := 0;
      var len := |chunks|;
      UpperBoundMeets(chunks, 0, b);
      while len > 0
        invariant i + len <= |chunks|
        invariant i <= UpperBound(chunks, b) <= i + len
      {
        var half := len / 2;
        if b < chunks[i + half].virtualBlockStart {
          len := half;
        } else {
          i := i + half + 1;
          len := len - half - 1;
        }
      }
    }

    method ReadBlock(blockNum: nat, buffer: array<byte>, at: nat) returns (ok: bool)
      requires ValidView(View()) && at + blockSize <= buffer.Length
      modifies buffer
      ensures ok <==> ReadInto(View(), blockNum, old(buffer[at..at + blockSize])).Some?
      ensures ok ==> buffer[..] == Splice(old(buffer[..]), at,
                                          ReadInto(View(), blockNum, old(buffer[at..at + blockSize])).value)
      ensures buffer[..at] == old(buffer[..at]) && buffer[at + blockSize..] == old(buffer[at + blockSize..])
    {
      if blockNum >= totalBlocks || chunks == [] {
        return false;
      }
      var it := FindUpperBound(blockNum);
      if it == 0 {
        return false;
      }
      var chunk := chunks[it - 1];
      if blockNum < chunk.virtualBlockStart || blockNum >= chunk.virtualBlockStart + chunk.blockCount {
        return false;
      }
      ok := ReadFromChunk(chunk, blockNum - chunk.virtualBlockStart, buffer, at);
    }

    method ReadFromChunk(chunk: SparseChunk, blockOffsetInChunk: nat, buffer: array<byte>, at: nat) returns (ok: bool)
      requires chunk.fillVal < TWO_32 && at + blockSize <= buffer.Length
      modifies buffer
      ensures var r := ChunkBlockInto(file, chunk, blockOffsetInChunk, old(buffer[at..at + blockSize]));
              (ok <==> r.Some?) && (ok ==> buffer[..] == Splice(old(buffer[..]), at, r.value))
      ensures buffer[..at] == old(buffer[..at]) && buffer[at + blockSize..] == old(buffer[at + blockSize..])
    {
      hide Splice, FillInto, OffT, Zeros;
      if chunk.chunkType == CHUNK_TYPE_RAW {
        var bytes := PreadInto(file, buffer, at, blockSize,
                               chunk.fileOffset + OffT(blockOffsetInChunk * blockSize));
        ok := bytes == blockSize;
      } else if chunk.chunkType == CHUNK_TYPE_FILL {
        FillWords(buffer, at, blockSize, chunk.fillVal);
        ok := true;
      } else {
        ZeroFill(buffer, at, blockSize);
        ok := true;
      }
    }

    static method ZeroFill(buffer: array<byte>, at: nat, size: nat)
      requires at + size <= buffer.Length
      modifies buffer
      ensures buffer[..] == Splice(old(buffer[..]), at, Zeros(size))
      ensures buffer[..at] == old(buffer[..at]) && buffer[at + size..] == old(buffer[at + size..])
    {
      forall j | 0 <= j < size {
        buffer[at + j] := 0;
      }
    }

    static method FillWords(buffer: array<byte>, at: nat, size: nat, fillVal: nat)
      requires fillVal < TWO_32 && at + size <= buffer.Length
      modifies buffer
      ensures buffer[..] == Splice(old(buffer[..]), at, FillInto(fillVal, old(buffer[at..at + size])))
      ensures buffer[..at] == old(buffer[..at]) && buffer[at + size..] == old(buffer[at + size..])
    {
      var word := Put32(fillVal);
      var count := size / 4;
      for i := 0 to count
        invariant forall j :: 0 <= j < buffer.Length ==>
                    buffer[j] == if at <= j < at + 4 * i then word[(j - at) % 4] else old(buffer[j])
      {
        StoreWord(buffer, at + 4 * i, word);
      }
      FilledIsSplice(old(buffer[..]), buffer[..], at, size, fillVal);
    }

    static method StoreWord(buffer: array<byte>, p: nat, word: seq<byte>)
      requires p + 4 <= buffer.Length && |word| == 4
      modifies buffer
      ensures forall j :: 0 <= j < buffer.Length ==> buffer[j] == if p <= j < p + 4 then word[j - p] else old(buffer[j])
    {
      buffer[p], buffer[p + 1], buffer[p + 2], buffer[p + 3] := word[0], word[1], word[2], word[3];
    }
  }

  /** A buffer filled word by word is the old one with the fill spliced in. */
  lemma FilledIsSplice(was: seq<byte>, now: seq<byte>, at: nat, size: nat, fillVal: nat)
    requires fillVal < TWO_32 && at + size <= |was| == |now|
    requires forall j :: 0 <= j < |was| ==>
               now[j] == if at <= j < at + 4 * (size / 4) then Put32(fillVal)[(j - at) % 4] else was[j]
    ensures now == Splice(was, at, FillInto(fillVal, was[at..at + size]))
    ensures now[..at] == was[..at] && now[at + size..] == was[at + size..]
  {
    hide Put32;
  }

  /** What `create` yields for a file. */
  function OpenSparse(file: seq<byte>): Option<DeviceView> {
    match Pread(file, FILE_HEADER_SIZE, 0)
    case None => None
    case Some(b) =>
      var hdr := ParseHeader(b);
      if hdr.magic != SPARSE_MAGIC then None
      else match Scan(file, hdr, hdr.totalChunks, hdr.fileHdrSz, 0)
        case None => None
        case Some(cs) => Some(SparseView(file, hdr.blkSz, hdr.totalBlks, cs))
  }

  /** A file without a whole header, or without the four magic bytes, is refused. */
  lemma RefusedFiles(file: seq<byte>)
    requires |file| < 28 || file[..4] != [0x3A, 0xFF, 0x26, 0xED]
    ensures OpenSparse(file) == None
  {
    if |file| >= 28 {
      WordBytes(file[0], file[1], file[2], file[3]);
      assert file[..4] == [file[0], file[1], file[2], file[3]];
      assert LE32(file[..28], 0) == LE32([file[0], file[1], file[2], file[3]], 0);
      assert Put32(0xED26FF3A) == [0x3A, 0xFF, 0x26, 0xED];
    }
  }

  datatype IBlockDevice = RawDevice(raw: RawBlockDevice) | SparseDevice(sparse: SparseBlockDevice) {
    function View(): DeviceView
      reads if SparseDevice? then {sparse} else {}
    {
      match this
      case RawDevice(d) => d.View()
      case SparseDevice(d) => d.View()
    }

    function BlockSize(): nat
      reads if SparseDevice? then {sparse} else {}
    {
      View().blockSize
    }

    method ReadBlock(blockNum: nat, buffer: array<byte>, at: nat) returns (ok: bool)
      requires ValidView(View()) && at + BlockSize() <= buffer.Length
      modifies buffer
      ensures ok <==> ReadInto(View(), blockNum, old(buffer[at..at + BlockSize()])).Some?
      ensures ok ==> buffer[..] == Splice(old(buffer[..]), at,
                                          ReadInto(View(), blockNum, old(buffer[at..at + BlockSize()])).value)
      ensures buffer[..at] == old(buffer[..at]) && buffer[at + BlockSize()..] == old(buffer[at + BlockSize()..])
    {
      hide ReadInto, Splice, ValidView;
      match this
      case RawDevice(d) => ok := d.ReadBlock(blockNum, buffer, at);
      case SparseDevice(d) => ok := d.ReadBlock(blockNum, buffer, at);
    }

    /** Both devices read a range block by block, at a 32-bit buffer offset. */
    method ReadBlocks(startBlock: nat, count: nat, buffer: array<byte>) returns (ok: bool)
      requires ValidView(View()) && count * BlockSize() <= buffer.Length
      modifies buffer
      ensures var r := ReadRange(View(), startBlock, 0, count, old(buffer[..]));
              (ok <==> r.Some?) && (ok ==> buffer[..] == r.value)
    {
      for i := 0 to count
        invariant ReadRange(View(), startBlock, i, count, buffer[..])
               == ReadRange(View(), startBlock, 0, count, old(buffer[..]))
      {
        hide ReadRange, ValidView;
        ok := ReadNext(startBlock, i, count, buffer);
        if !ok {
          return false;
        }
      }
      return true;
    }

    /** One turn of the loop above. */
    method ReadNext(startBlock: nat, i: nat, count: nat, buffer: array<byte>) returns (ok: bool)
      requires ValidView(View()) && i < count && count * BlockSize() <= buffer.Length
      modifies buffer
      ensures var r := ReadRange(View(), startBlock, i, count, old(buffer[..]));
              if ok then r == ReadRange(View(), startBlock, i + 1, count, buffer[..]) else r == None
    {
      hide ReadRange, ReadInto, ValidView, Splice;
      RangeUnfold(View(), startBlock, i, count, buffer[..]);
      var at := i * BlockSize() % TWO_32;
      ok := ReadBlock((startBlock + i) % TWO_64, buffer, at);
    }
  }

  /** The entries found so far and those the rest of the scan gives make the whole index. */
  ghost predicate IndexSoFar(whole: Option<seq<SparseChunk>>, done: seq<SparseChunk>, rest: Option<seq<SparseChunk>>) {
    match rest
    case None => whole == None
    case Some(cs) => whole == Some(done + cs)
  }

  /** One header read: either the scan ends without an index, or its entry moves to the found ones. */
  lemma IndexNext(whole: Option<seq<SparseChunk>>, done: seq<SparseChunk>, file: seq<byte>, hdr: SparseHeader,
                  n: nat, offset: nat, start: nat)
    requires n > 0 && IndexSoFar(whole, done, Scan(file, hdr, n, offset, start))
    ensures match Pread(file, CHUNK_HEADER_SIZE, offset)
            case None => whole == None
            case Some(b) =>
              var h := ParseChunkHeader(b);
              IndexSoFar(whole, done + [ChunkAt(file, hdr, h, offset, start)],
                         Scan(file, hdr, n - 1, offset + h.totalSz, start + h.chunkSz))
  {
    hide ParseChunkHeader, ChunkAt, Pread;
    var b := Pread(file, CHUNK_HEADER_SIZE, offset);
    if b.Some? {
      var h := ParseChunkHeader(b.value);
      var rest := Scan(file, hdr, n - 1, offset + h.totalSz, start + h.chunkSz);
      if rest.Some? {
        ScanStep(file, hdr, n, offset, start, h, rest.value);
        Assoc(done, [ChunkAt(file, hdr, h, offset, start)], rest.value);
      }
    }
  }

  lemma OffsetInBuffer(i: nat, count: nat, size: nat)
    requires i < count
    ensures i * size % TWO_32 <= i * size
    ensures i * size + size <= count * size
  {
    MulMono(i + 1, count, size);
  }

  /** Blocks i.. of a range read, stored into `buf` one after another. */
  function ReadRange(v: DeviceView, start: nat, i: nat, count: nat, buf: seq<byte>): (r: Option<seq<byte>>)
    requires ValidView(v) && i <= count && count * v.blockSize <= |buf|
    ensures r.Some? ==> |r.value| == |buf|
    decreases count - i
  {
    if i == count then Some(buf)
    else
      OffsetInBuffer(i, count, v.blockSize);
      var at := i * v.blockSize % TWO_32;
      match ReadInto(v, (start + i) % TWO_64, buf[at..at + v.blockSize])
      case None => None
      case Some(x) => ReadRange(v, start, i + 1, count, Splice(buf, at, x))
  }

  lemma RangeUnfold(v: DeviceView, start: nat, i: nat, count: nat, buf: seq<byte>)
    requires ValidView(v) && i < count && count * v.blockSize <= |buf|
    ensures i * v.blockSize % TWO_32 + v.blockSize <= |buf|
    ensures var at: nat := i * v.blockSize % TWO_32;
            ReadRange(v, start, i, count, buf)
            == match ReadInto(v, (start + i) % TWO_64, buf[at..at + v.blockSize])
               case None => None
               case Some(x) => ReadRange(v, start, i + 1, count, Splice(buf, at, x))
  {
    hide ReadInto, Splice, ValidView;
    OffsetInBuffer(i, count, v.blockSize);
  }

  lemma RangeStep(v: DeviceView, start: nat, i: nat, count: nat, buf: seq<byte>, at: nat, x: seq<byte>)
    requires ValidView(v) && i < count && count * v.blockSize <= |buf|
    requires at == i * v.blockSize < TWO_32 && start + i < TWO_64 && at + v.blockSize <= |buf|
    requires ReadInto(v, start + i, buf[at..at + v.blockSize]) == Some(x)
    ensures ReadRange(v, start, i, count, buf) == ReadRange(v, start, i + 1, count, Splice(buf, at, x))
  {
    hide ReadRange, ReadInto, ValidView, Splice;
    RangeUnfold(v, start, i, count, buf);
  }
}
