/** Mounting a sparse image is mounting its expansion: every answer of the ext4 reader is the same
    over the sparse device and over the raw device on the expanded image. */
module MountTransparency {
  import opened Bytes
  import opened SparseImage
  import opened BlockDevice
  import opened SparseRoundTrip
  import opened Ext4Layout
  import opened Ext4Paths

  /** Every block of the expansion can be read: no RAW chunk runs past the end of the sparse file. */
  predicate Complete(v: DeviceView)
    requires ValidView(v) && v.SparseView?
  {
    forall i :: 0 <= i < |Linear(v.file, v.blockSize, v.chunks)| ==> Linear(v.file, v.blockSize, v.chunks)[i].Some?
  }

  /** The expanded blocks of a complete sparse image. */
  function Expanded(v: DeviceView): seq<seq<byte>>
    requires ValidView(v) && v.SparseView? && Complete(v)
  {
    var lin := Linear(v.file, v.blockSize, v.chunks);
    seq(|lin|, i requires 0 <= i < |lin| => lin[i].value)
  }

  lemma {:induction false} LinearSized(file: seq<byte>, size: nat, cs: seq<SparseChunk>)
    requires WellFormedIndex(cs)
    ensures forall i :: 0 <= i < |Linear(file, size, cs)| && Linear(file, size, cs)[i].Some? ==>
              |Linear(file, size, cs)[i].value| == size
  {
    if cs != [] {
      LinearSized(file, size, cs[1..]);
    }
  }

  /** Every opened device is valid, so the theorems below ask nothing of a file by asking for that. */
  lemma OpenedIsValid(file: seq<byte>)
    requires OpenSparse(file).Some?
    ensures ValidView(OpenSparse(file).value) && OpenSparse(file).value.SparseView?
  {
    var hdr := ParseHeader(Pread(file, FILE_HEADER_SIZE, 0).value);
    ScanTiles(file, hdr, hdr.totalChunks, hdr.fileHdrSz, 0);
  }

  /** Any sparse image the device opens, not only well-formed ones: if its data is complete, the reader
      sees the disk of the raw device on the expansion. The declared total need not match the chunks. */
  lemma OpenedIsRaw(file: seq<byte>, v: DeviceView)
    requires OpenSparse(file) == Some(v) && 0 < v.blockSize && v.blockSize % 4 == 0
    requires ValidView(v) && Complete(v) && |Concat(Expanded(v))| < TWO_63
    ensures DiskOf(v) == DiskOf(RawView(Concat(Expanded(v)), v.blockSize, v.totalBlocks))
  {
    LinearSized(v.file, v.blockSize, v.chunks);
    forall b: nat | b < v.totalBlocks
      ensures Block(v, b) == Block(RawView(Concat(Expanded(v)), v.blockSize, v.totalBlocks), b)
    {
      SparseReadIsLinear(v, b, Zeros(v.blockSize));
      RawReadIsImage(Expanded(v), v.blockSize, v.totalBlocks, b);
    }
  }

  /** The reader answers the same on both disks: mounting, resolving, reading and listing. */
  ghost predicate SameAnswers(a: Disk, b: Disk)
    requires a.Valid() && b.Valid() && SuperblockFits(a.blockSize) && SuperblockFits(b.blockSize)
  {
    && Mount(a) == Mount(b)
    && forall g: Geometry, path: seq<byte> :: Mounted(g, a) ==>
         && Mounted(g, b)
         && Resolve(g, a, path) == Resolve(g, b, path)
         && ReadPath(g, a, path) == ReadPath(g, b, path)
         && Listing(g, a, path) == Listing(g, b, path)
  }

  /** Mount transparency for every complete sparse image the device opens. */
  lemma OpenedMountsLikeRaw(file: seq<byte>, v: DeviceView)
    requires OpenSparse(file) == Some(v) && v.blockSize % 4 == 0 && SuperblockFits(v.blockSize)
    requires ValidView(v) && Complete(v) && |Concat(Expanded(v))| < TWO_63
    ensures SameAnswers(DiskOf(v), DiskOf(RawView(Concat(Expanded(v)), v.blockSize, v.totalBlocks)))
  {
    OpenedIsRaw(file, v);
  }

  /** Mount transparency for every written chunk list: write an image, mount it, and every path
      resolves, reads and lists as on the plain image. */
  lemma WrittenMountsLikeRaw(cs: seq<Chunk>, size: nat, total: nat)
    requires AllEncodable(cs, size) && size < TWO_32 && total < TWO_32 && |cs| < TWO_32
    requires size % 4 == 0 && SuperblockFits(size) && |Image(cs, size)| < TWO_63
    ensures OpenSparse(Encode(cs, size, total)).Some? && ValidView(OpenSparse(Encode(cs, size, total)).value)
    ensures DiskOf(OpenSparse(Encode(cs, size, total)).value).blockSize == size
    ensures SameAnswers(DiskOf(OpenSparse(Encode(cs, size, total)).value),
                        DiskOf(RawView(Image(cs, size), size, total)))
  {
    SparseIsRaw(cs, size, total);
  }
}
