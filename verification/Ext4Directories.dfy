/** A writer for linear directories, and what the reader finds in a directory so written. */
module Ext4Directories {
  import opened Bytes
  import opened SparseImage
  import opened Ext4Layout
  import opened Ext4Files
  import opened Ext4Contents
  import opened Ext4Paths
  import opened Ext4Records

  /** A directory record with `slack` unused bytes behind its name; a deleted one has inode 0. */
  datatype DirRecord = DirRecord(inode: nat, fileType: byte, name: seq<byte>, slack: nat) {
    predicate Encodable() {
      inode < TWO_32 && |name| < 256 && Length() < TWO_16
    }

    function Length(): nat {
      DIR_ENTRY_HEADER + |name| + slack
    }

    function Entry(): DirEntry {
      DirEntry(inode, fileType, |name|, name, true)
    }
  }

  function EncodeRecord(r: DirRecord): (e: seq<byte>)
    requires r.Encodable()
    ensures |e| == r.Length()
  {
    Put32(r.inode) + Put16(r.Length()) + [|r.name|, r.fileType] + r.name + Zeros(r.slack)
  }

  predicate AllWritable(rs: seq<DirRecord>) {
    forall i :: 0 <= i < |rs| ==> rs[i].Encodable()
  }

  function EncodeDirectory(rs: seq<DirRecord>): seq<byte>
    requires AllWritable(rs)
  {
    if rs == [] then [] else EncodeRecord(rs[0]) + EncodeDirectory(rs[1..])
  }

  function EntriesOf(rs: seq<DirRecord>): seq<DirEntry> {
    seq(|rs|, i requires 0 <= i < |rs| => rs[i].Entry())
  }

  /** One record is read back from where it stands. */
  lemma RecordRead(data: seq<byte>, at: nat, r: DirRecord)
    requires r.Encodable() && Holds(data, at, EncodeRecord(r))
    ensures at + DIR_ENTRY_HEADER <= |data|
    ensures LE16(data, at + 4) == r.Length() && EntryAt(data, at) == r.Entry()
  {
    var n := |r.name|;
    RecordParts(r);
    HoldsPart(data, at, EncodeRecord(r), 0, 4);
    HoldsPart(data, at, EncodeRecord(r), 4, 6);
    HoldsPart(data, at, EncodeRecord(r), 6, 8);
    HoldsPart(data, at, EncodeRecord(r), 8, 8 + n);
    hide EncodeRecord, Put16, Put32, LE16, LE32;
    Field32(data, at, r.inode);
    Field16(data, at + 4, r.Length());
    assert data[at + 6] == data[at + 6..at + 8][0] && data[at + 7] == data[at + 6..at + 8][1];
  }

  lemma RecordParts(r: DirRecord)
    requires r.Encodable()
    ensures var e, n := EncodeRecord(r), |r.name|;
            e[0..4] == Put32(r.inode) && e[4..6] == Put16(r.Length())
            && e[6..8] == [|r.name|, r.fileType] && e[8..8 + n] == r.name
  {
  }

  lemma HoldsPart(data: seq<byte>, at: nat, x: seq<byte>, i: nat, j: nat)
    requires Holds(data, at, x) && i <= j <= |x|
    ensures at + j <= |data| && data[at + i..at + j] == x[i..j]
  {
    SubSlice(data, at, |x|, i, j);
  }

  lemma DirectoryEnds(data: seq<byte>, at: nat)
    requires |data| < at + DIR_ENTRY_HEADER
    ensures DirEntries(data, at) == [] == EntriesOf([])
  {
  }

  lemma DirectoryStep(data: seq<byte>, at: nat, rs: seq<DirRecord>)
    requires AllWritable(rs) && rs != [] && Holds(data, at, EncodeRecord(rs[0]))
    requires DirEntries(data, at + rs[0].Length()) == EntriesOf(rs[1..])
    ensures DirEntries(data, at) == EntriesOf(rs)
  {
    hide EncodeRecord, EntryAt, LE16, DirEntries, Holds, EntriesOf;
    RecordRead(data, at, rs[0]);
    DirEntriesCons(data, at);
    EntriesCons(rs);
  }

  lemma EntriesCons(rs: seq<DirRecord>)
    requires rs != []
    ensures EntriesOf(rs) == [rs[0].Entry()] + EntriesOf(rs[1..])
  {
  }

  /** Scanning what was written finds exactly the records, deleted ones included, in order; up to seven
      bytes may follow. */
  lemma {:induction false} ScanFindsRecords(data: seq<byte>, at: nat, rs: seq<DirRecord>)
    requires AllWritable(rs) && Holds(data, at, EncodeDirectory(rs))
    requires |data| < at + |EncodeDirectory(rs)| + DIR_ENTRY_HEADER
    ensures DirEntries(data, at) == EntriesOf(rs)
    decreases |rs|
  {
    hide DirEntries, EncodeRecord, EntriesOf;
    if rs == [] {
      DirectoryEnds(data, at);
    } else {
      HoldsParts(data, at, EncodeRecord(rs[0]), EncodeDirectory(rs[1..]));
      ScanFindsRecords(data, at + rs[0].Length(), rs[1..]);
      DirectoryStep(data, at, rs);
    }
  }

  /** Live records carry different names. */
  predicate DistinctNames(rs: seq<DirRecord>) {
    forall i, j :: 0 <= i < j < |rs| && rs[i].inode != 0 && rs[j].inode != 0 ==> rs[i].name != rs[j].name
  }

  /** `ino` is the inode a name stands for: that of its live record, or 0 when it has none. */
  predicate Names(rs: seq<DirRecord>, name: seq<byte>, ino: nat) {
    if ino == 0 then forall i :: 0 <= i < |rs| ==> rs[i].inode == 0 || rs[i].name != name
    else exists i :: 0 <= i < |rs| && rs[i].inode == ino && rs[i].name == name
  }

  /** Every name stands for one inode at most. */
  lemma NamesOne(rs: seq<DirRecord>, name: seq<byte>, a: nat, b: nat)
    requires DistinctNames(rs) && Names(rs, name, a) && Names(rs, name, b)
    ensures a == b
  {
  }

  lemma {:induction false} LookupOfRecords(rs: seq<DirRecord>, name: seq<byte>)
    ensures Lookup(EntriesOf(rs), name).Ok? && Names(rs, name, Lookup(EntriesOf(rs), name).value)
    decreases |rs|
  {
    if rs != [] {
      var rest, found := rs[1..], Lookup(EntriesOf(rs[1..]), name);
      LookupOfRecords(rest, name);
      assert EntriesOf(rs)[1..] == EntriesOf(rest) && EntriesOf(rs)[0] == rs[0].Entry();
      if rs[0].inode == 0 || rs[0].name != name {
        assert Lookup(EntriesOf(rs), name) == found;
        if found.value != 0 {
          var i :| 0 <= i < |rest| && rest[i].inode == found.value && rest[i].name == name;
          assert rs[i + 1] == rest[i];
        }
      }
    }
  }

  /** Below a directory whose data was written as `rs`, a plain name resolves to the inode its record
      gives, and to nothing when no live record has it. */
  lemma WrittenDirectoryResolves(g: Geometry, d: Disk, p: seq<byte>, rs: seq<DirRecord>, name: seq<byte>, ino: nat)
    requires Mounted(g, d) && AllWritable(rs) && DistinctNames(rs) && PlainName(name)
    requires Resolve(g, d, p).Ok? && Resolve(g, d, p).value != 0
    requires FileOf(g, d, Resolve(g, d, p).value) == Ok(EncodeDirectory(rs))
    ensures Resolve(g, d, p + [SLASH] + name) == Ok(ino) <==> Names(rs, name, ino)
  {
    hide Mounted, FileOf, Resolve, PlainName, DirEntries, Lookup, Names, DistinctNames, EntriesOf, EncodeDirectory;
    var data := EncodeDirectory(rs);
    assert Holds(data, 0, data);
    ScanFindsRecords(data, 0, rs);
    ResolveChild(g, d, p, name);
    LookupOfRecords(rs, name);
    if Names(rs, name, ino) {
      NamesOne(rs, name, ino, Lookup(EntriesOf(rs), name).value);
    }
  }

  /** Opening "p/name" opens the inode the name stands for below p, and fails when it stands for none. */
  lemma PathIsInode(g: Geometry, d: Disk, p: seq<byte>, rs: seq<DirRecord>, name: seq<byte>, ino: nat)
    requires Mounted(g, d) && AllWritable(rs) && DistinctNames(rs) && PlainName(name)
    requires Resolve(g, d, p).Ok? && Resolve(g, d, p).value != 0
    requires FileOf(g, d, Resolve(g, d, p).value) == Ok(EncodeDirectory(rs)) && Names(rs, name, ino)
    ensures ReadPath(g, d, p + [SLASH] + name) == if ino == 0 then Fail else FileOf(g, d, ino)
  {
    hide Mounted, FileOf, Resolve, PlainName, Names, DistinctNames, EncodeDirectory;
    WrittenDirectoryResolves(g, d, p, rs, name, ino);
  }

  /** From the path to the bytes: below a directory written as `rs`, "p/name" reads as exactly the content
      the extents of its inode define, when a live record gives that inode, the inode's record and
      descriptor stand at their addresses and its tree is hole-free on readable blocks. */
  lemma WrittenPathReads(g: Geometry, d: Disk, p: seq<byte>, rs: seq<DirRecord>, name: seq<byte>,
                         ino: nat, t: Descriptor, x: InodeRecord, l: Layout)
    requires Mounted(g, d) && AllWritable(rs) && DistinctNames(rs) && PlainName(name)
    requires Resolve(g, d, p).Ok? && Resolve(g, d, p).value != 0
    requires FileOf(g, d, Resolve(g, d, p).value) == Ok(EncodeDirectory(rs)) && Names(rs, name, ino)
    requires Recorded(g, d, ino, t, x) && t.table != 0
    requires WrittenAt(d, x.block, l) && HoleFree(Reached(d, l), 0, Needed(x.size, g.blockSize))
    requires NeededReadable(d, PhysBlocks(Ranges(Reached(d, l))), x.size)
    ensures ReadPath(g, d, p + [SLASH] + name) == Ok(Content(d, Reached(d, l), x.size))
    ensures OrderedFrom(AllExtents(l), 0) ==>
              ReadPath(g, d, p + [SLASH] + name) == Ok(Content(d, AllExtents(l), x.size))
  {
    assert ino != 0 && g.blockSize > 0;
    hide *;
    PathIsInode(g, d, p, rs, name, ino);
    MountedSize(g, d);
    FileOnDiskIsRead(g, d, ino, t, x, l);
  }

  lemma MountedSize(g: Geometry, d: Disk)
    requires Mounted(g, d)
    ensures d.Valid() && d.blockSize == g.blockSize
  {
  }

  // ---------------------------------------------------------------------------
  // Listing
  // ---------------------------------------------------------------------------

  /** The records a listing shows: live, and neither "." nor "..". */
  function Visible(rs: seq<DirRecord>): seq<DirRecord> {
    if rs == [] then []
    else (if rs[0].inode == 0 || rs[0].name == [46] || rs[0].name == [46, 46] then [] else [rs[0]]) + Visible(rs[1..])
  }

  /** x shows the record r of the directory p: name, inode and path, whether it is a directory (type 2) or
      a symbolic link (type 7), and the size its inode gives, 0 when that cannot be read. */
  ghost predicate Shows(g: Geometry, d: Disk, p: seq<byte>, r: DirRecord, x: FsFileEntry)
    requires Mounted(g, d)
  {
    && x.name == r.name && x.inode == r.inode
    && x.path == (if p == [47] then [] else p) + [47] + r.name
    && (x.isDirectory <==> r.fileType == 2) && (x.isSymlink <==> r.fileType == 7)
    && x.size == (match Inode(g, d, r.inode) case None => 0 case Some(i) => InodeSize(i))
  }

  /** The listing of p shows exactly the visible records of rs, in the order of the directory. */
  ghost predicate ListsExactly(g: Geometry, d: Disk, p: seq<byte>, rs: seq<DirRecord>)
    requires Mounted(g, d)
  {
    && Listing(g, d, p).Ok? && |Listing(g, d, p).value| == |Visible(rs)|
    && forall i :: 0 <= i < |Visible(rs)| ==> Shows(g, d, p, Visible(rs)[i], Listing(g, d, p).value[i])
  }

  lemma {:induction false} CollectOfRecords(g: Geometry, d: Disk, p: seq<byte>, rs: seq<DirRecord>)
    requires Mounted(g, d)
    ensures var c := Collect(g, d, p, EntriesOf(rs));
            && c.Ok? && |c.value| == |Visible(rs)|
            && forall i :: 0 <= i < |Visible(rs)| ==> Shows(g, d, p, Visible(rs)[i], c.value[i])
    decreases |rs|
  {
    if rs != [] {
      CollectOfRecords(g, d, p, rs[1..]);
      assert EntriesOf(rs)[1..] == EntriesOf(rs[1..]) && EntriesOf(rs)[0] == rs[0].Entry();
      EntryShows(g, d, p, rs[0]);
      hide FileEntry, Mounted, Shows;
    }
  }

  lemma EntryShows(g: Geometry, d: Disk, p: seq<byte>, r: DirRecord)
    requires Mounted(g, d)
    ensures Shows(g, d, p, r, FileEntry(g, d, p, r.Entry()))
  {
    hide Mounted, Inode, InodeSize;
  }

  /** Listing a directory whose data was written as `rs` shows exactly its visible records; where the inode
      of one was written, with the size written. */
  lemma WrittenDirectoryLists(g: Geometry, d: Disk, p: seq<byte>, rs: seq<DirRecord>)
    requires Mounted(g, d) && AllWritable(rs)
    requires Resolve(g, d, p).Ok? && Resolve(g, d, p).value != 0
    requires FileOf(g, d, Resolve(g, d, p).value) == Ok(EncodeDirectory(rs))
    ensures ListsExactly(g, d, p, rs)
    ensures forall i, t, y :: 0 <= i < |Visible(rs)| && Recorded(g, d, Visible(rs)[i].inode, t, y) && t.table != 0 ==>
              Listing(g, d, p).value[i].size == y.size
  {
    WrittenListing(g, d, p, rs);
    hide Mounted, Listing, Recorded, Visible, Inode, InodeSize, EncodeInode;
    forall i, t, y | 0 <= i < |Visible(rs)| && Recorded(g, d, Visible(rs)[i].inode, t, y) && t.table != 0
      ensures Listing(g, d, p).value[i].size == y.size
    {
      assert Shows(g, d, p, Visible(rs)[i], Listing(g, d, p).value[i]);
      SizeShown(g, d, Visible(rs)[i].inode, t, y);
    }
  }

  lemma SizeShown(g: Geometry, d: Disk, ino: nat, t: Descriptor, y: InodeRecord)
    requires Mounted(g, d) && Recorded(g, d, ino, t, y) && t.table != 0
    ensures Inode(g, d, ino).Some? && InodeSize(Inode(g, d, ino).value) == y.size
  {
    RecordIsRead(g, d, ino, t, y);
    InodeRoundTrip(y);
  }

  lemma WrittenListing(g: Geometry, d: Disk, p: seq<byte>, rs: seq<DirRecord>)
    requires Mounted(g, d) && AllWritable(rs)
    requires Resolve(g, d, p).Ok? && Resolve(g, d, p).value != 0
    requires FileOf(g, d, Resolve(g, d, p).value) == Ok(EncodeDirectory(rs))
    ensures ListsExactly(g, d, p, rs)
  {
    hide Mounted, FileOf, Resolve, DirEntries, Collect, Shows, EntriesOf, EncodeDirectory, Visible;
    var data := EncodeDirectory(rs);
    assert Holds(data, 0, data);
    ScanFindsRecords(data, 0, rs);
    CollectOfRecords(g, d, p, rs);
  }
}
