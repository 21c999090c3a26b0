# Verification of the GSI runtime core

A Dafny model of the user-space image stack, the boot supervisor, the property store and the two
bounded buffers of the runtime, with proofs of what they promise. `dafny verify dfyconfig.toml`
checks all of it.

- **Image stack.** `SparseImage` and `BlockDevice` model the Android sparse image (the layout of
  AOSP's `sparse_format.h`), its chunk index and the two block devices; `SparseRoundTrip` adds a
  writer. `Ext4Layout`, `Ext4Files`, `Ext4Contents` and `Ext4Paths` give the meaning of an ext4 disk
  as the reader sees it (the Linux kernel document "ext4 Data Structures and Algorithms", sections
  "Finding an Inode", "Extent Tree" and "Linear (Classic) Directories"); `Ext4Records` and
  `Ext4Directories` are writers of that format with their round trips, and `Ext4Image` a whole small
  image built with them, on which every part meets; `Ext4Reader` holds the loops and buffers, each
  proved against that meaning. `MountTransparency` joins the two halves.
- **Boot.** `InitScript` is the init script language with its printer, `InitParser` the parser
  object and the loading from a mounted image. `BootModel` is the supervisor as a state machine with
  one step per lock-held region or atomic store; `BootTrace` says what a boot does act by act and how it is
  started and stopped; `BootProperties` adds the property store it announces to and `ServiceProperties`
  says when the two agree; `BootManager` is the object whose methods take those steps.
- **Properties.** `PropertyFile` is the text file between the service and the hooked getter,
  `PropertyWire` the three socket formats, `PropertyService` the store, its runs and the reader on
  its line buffer; `PropertyDefaults` shows the properties the service brings along.
- **Buffers.** `LogcatBroker` and `AudioBridge`.

The hardest results: mount transparency (`MountTransparency.OpenedMountsLikeRaw`,
`WrittenMountsLikeRaw`), files read from path to bytes (`Ext4Directories.WrittenPathReads`,
`Ext4Image.ImageReads`, `PackedImageOpens`), the exact condition under which files are read correctly
(`Ext4Contents.CorrectExactlyWhenHoleFree`), the exact geometries in which no record crosses a block
(`Ext4Layout.RecordsInsideExactly`), the walk over extent trees (`Ext4Reader.Ext4Reader.ReadExtentTree`
with `Ext4Files.UnfoldsUnique` and `WrittenTreeUnfolds`), safety and completion of every boot
interleaving (`BootModel.EveryRunIsSafe`, `CompletedMeansUp`, `BootCompletes`, `StopLeavesNothing`), what
a boot runs while it shows which phase (`BootTrace.BootFollowsScript`, `StoppedWorkerLeaves`), the service properties (`ServiceProperties.AgreesExactly`), the printer and parser of init scripts
(`InitScript.PrintParse`, `ConcatenationExact`) and the exact round trip of the property file
(`PropertyFile.RoundTripExact`).

## Where the code is weaker than it seems

Each line names the member that states it, with the exact condition where there is one.

- Holes and uninitialised extents are not honoured, because `ee_block` and the uninitialised flag are
  never used: `Ext4Contents.CorrectExactlyWhenHoleFree`.
- Nothing stops the extent walk on a cycle of index nodes: `Ext4Files.CycleNeverEnds`. It ends exactly
  when no path of readable blocks is longer than the disk has blocks: `Ext4Files.WalkEndsExactly`,
  `Ext4Paths.FileStuckExactly`.
- A file whose extents run short is still a success; it has the full size exactly when the listed
  blocks hold as much: `Ext4Paths.ReadFileBytes`.
- A file that lost a node of its tree is still a success: `Ext4Image.LostNodeIsSuccess` reads as empty.
  When such a success is the whole file: `Ext4Contents.PartIsWholeFile`, and in any case
  `Ext4Contents.RightExactlyWhenAgreeing`.
- An inode or descriptor record that crosses a block boundary would be copied from outside the
  buffer: `Ext4Layout.RecordsInsideExactly` says in which geometries no inode number does that.
- The fill word covers a block only if its size is divisible by 4: `SparseImage.FillExact`.
- The buffer offset of a range read is a 32-bit product: `SparseRoundTrip.ReadBlocksExact`,
  `LongRangeWraps`.
- The properties `init.svc.<name>` need not tell the truth: `ServiceProperties.SeedingClaims`; when they do:
  `ServiceProperties.AgreesExactly`.
- The hooked getter reads lines of at most 1023 characters: `PropertyFile.RoundTripExact` gives the
  exact limit, 1017 characters of key and value, one more than a single buffer with its newline holds.
- Two 32-bit length sums of the length-prefixed message can wrap (`PropertyWire.WrappingName`); the
  source then reads past its buffer, and only then: `PropertyWire.OutOfBoundsExactly`.
- Text longer than one read is cut: `PropertyWire.AssignmentRoundTrip`, `SetpropRoundTrip` and
  `GetpropRoundTrip` give the exact lengths.
- The first start overwrites properties set before it (`PropertyService.SeedingOverwrites`), exactly
  those it seeds with another value: `PropertyService.StartKeepsExactly`.
- "setprop key " with an empty value is acknowledged and ignored: `PropertyWire.EmptyValueIgnored`.
- A tombstone evicts nothing and the overshoot is never made up (`LogcatBroker.OvershootStays`); the
  buffer stays within its limit exactly in the runs of `LogcatBroker.WithinLimitExactly`.
- Parsing two scripts can differ from parsing their concatenation, for a section the first leaves open
  and lines before the first header of the second (`InitScript.ServiceTakesDirective`); exactly when:
  `InitScript.ConcatenationExact`.

## Model

| member | source | states |
|---|---|---|
| `SparseImage.ScanTiles` | app/src/main/cpp/block_device.cpp:93-120 | every index the scan of the chunk headers can produce, from any file, has one entry per header and tiles the virtual blocks from 0 on without gap or overlap, empty chunks included |
| `SparseImage.UpperBoundMeets` | app/src/main/cpp/block_device.cpp:133-138 | on a tiling index the upper bound splits the chunks into those that start at or before the block and those that start after it |
| `SparseImage.LookupIsLinear` | app/src/main/cpp/block_device.cpp:140-148 | the chunk before the upper bound holds the block exactly when the address-free linear expansion has such a block, and its block at that distance is the block of the expansion |
| `SparseImage.SparseReadIsLinear` | app/src/main/cpp/block_device.cpp:127-169 | a sparse read returns block b of the linear RAW/FILL/DONT_CARE expansion for every b below the declared total and the expansion, and fails for every other b |
| `SparseImage.FillExact` | app/src/main/cpp/block_device.cpp:157-161 | filling by 32-bit words covers the whole block, whatever the buffer held, if and only if the block size is a multiple of 4 |
| `SparseImage.FillWordBytes` | app/src/main/cpp/block_device.cpp:111-115 | each byte of the fill word read at indexing is the byte of the file, or zero behind its end |
| `SparseImage.OffTWraps` | app/src/main/cpp/block_device.cpp:48-48 | the product of block number and size reaches pread as the signed 64-bit value it has modulo 2^64 |
| `SparseImage.OtherChunksAreZeros` | app/src/main/cpp/block_device.cpp:164-167 | every chunk that is neither RAW nor FILL, of a known kind or not, reads as zeros |
| `SparseImage.ReadIntoIsBlock` | app/src/main/cpp/block_device.cpp:127-169 | with a block size divisible by 4 what a read leaves does not depend on what the buffer held before |
| `BlockDevice.PreadInto` | app/src/main/cpp/block_device.cpp:49-50 | a full read stores exactly the requested file bytes; bytes outside the target range never change, even on a short read |
| `BlockDevice.RawBlockDevice.ReadBlock` | app/src/main/cpp/block_device.cpp:42-51 | success and stored bytes of a raw read, with the product of block number and size taken as a 64-bit value cast to a signed offset |
| `BlockDevice.SparseBlockDevice.Create` | app/src/main/cpp/block_device.cpp:70-87 | a device results exactly when the header and all chunk headers can be read and the magic is right, and its index is valid |
| `BlockDevice.RefusedFiles` | app/src/main/cpp/block_device.cpp:70-75 | a file shorter than a header, or without the four magic bytes, is refused |
| `BlockDevice.SparseBlockDevice.BuildIndex` | app/src/main/cpp/block_device.cpp:89-125 | the loop leaves in the chunk vector exactly the index defined by recursion on the headers, or reports failure when a header is cut off |
| `BlockDevice.SparseBlockDevice.FindUpperBound` | app/src/main/cpp/block_device.cpp:133-138 | binary search finds the position a linear scan for the first later chunk finds |
| `BlockDevice.SparseBlockDevice.ReadBlock` | app/src/main/cpp/block_device.cpp:127-169 | success, failure and stored bytes of a sparse read; nothing outside the block in the buffer changes |
| `BlockDevice.SparseBlockDevice.ReadFromChunk` | app/src/main/cpp/block_device.cpp:150-168 | the three kinds of chunk, stored in place: file bytes at the chunk data, repeated fill words, zeros |
| `BlockDevice.SparseBlockDevice.FillWords` | app/src/main/cpp/block_device.cpp:156-163 | the word loop in place, leaving the last size mod 4 bytes as they were |
| `BlockDevice.IBlockDevice.ReadBlock` | app/src/main/cpp/block_device.cpp:42-51 | both devices answer as their view says |
| `BlockDevice.IBlockDevice.ReadBlocks` | app/src/main/cpp/block_device.cpp:171-179 | a range read block by block at 32-bit buffer offsets, for both devices |
| `SparseRoundTrip.ScanRecovers` | app/src/main/cpp/block_device.cpp:89-125 | indexing what a writer of the sparse format wrote recovers start, length, type, fill word and data offset of every chunk, for every chunk list |
| `SparseRoundTrip.LinearIsImage` | app/src/main/cpp/block_device.cpp:150-168 | the recovered index expands to exactly the blocks the chunks stand for |
| `SparseRoundTrip.RawReadIsImage` | app/src/main/cpp/block_device.cpp:42-51 | a raw device on a plain image serves exactly its whole blocks below the total, with no offset wrapping into the file |
| `SparseRoundTrip.SparseIsRaw` | app/src/main/cpp/block_device.cpp:70-169 | opening an encoded image succeeds and shows the very disk the raw device on the expanded image shows, failures included, whatever total the header declares |
| `SparseRoundTrip.SampleReads` | app/src/main/cpp/block_device.cpp:70-169 | a sparse file given byte by byte, with one chunk of each kind, opens to its four blocks |
| `SparseRoundTrip.LongHeadersRead` | app/src/main/cpp/block_device.cpp:93-109 | longer file and chunk headers than the fields fill are honoured: a chunk is found behind the declared file header and its data behind the declared chunk header |
| `SparseRoundTrip.TailUntouched` | app/src/main/cpp/block_device.cpp:171-179 | no store of a range read reaches a byte at or past 2^32 + block size - 1 |
| `SparseRoundTrip.ReadBlocksExact` | app/src/main/cpp/block_device.cpp:171-179 | a readable range arrives as the concatenation of its blocks in every buffer if and only if the last 32-bit store offset does not wrap |
| `SparseRoundTrip.ReadBlocksFails` | app/src/main/cpp/block_device.cpp:171-179 | a range read fails if and only if one of its blocks, counted in 64 bits, cannot be read |
| `SparseRoundTrip.LongRangeWraps` | app/src/main/cpp/block_device.cpp:171-179 | one DONT_CARE chunk of a block more than 2^32 bytes is a readable range on which the last store wraps |
| `Ext4Layout.SuperblockAddress` | app/src/main/cpp/ext4_reader.cpp:167-179 | for block size 1024 and for larger ones alike, the superblock parsed is bytes 1024 to 1280 of the disk |
| `Ext4Layout.FlatSlice` | app/src/main/cpp/ext4_reader.cpp:167-179 | a slice of a block is the slice of the flat disk at the byte address of the block |
| `Ext4Layout.StraddleExact` | app/src/main/cpp/ext4_reader.cpp:232-241 | for power-of-two blocks, no record of a table crosses a block boundary if and only if the slot size is a multiple of the record length rounded up to a power of two |
| `Ext4Layout.AddressableExact` | app/src/main/cpp/ext4_reader.cpp:201-241 | over all block sizes a superblock can declare, inode and descriptor records of tables without end stay inside their blocks if and only if the inode size is a multiple of 128 and the descriptor size one of 32 or 64 |
| `Ext4Layout.TableFitsExactly` | app/src/main/cpp/ext4_reader.cpp:226-241 | a table of a given number of slots keeps its records inside blocks if and only if its slots are aligned or it ends before the first slot that crosses; from as many slots as a block has bytes on, if and only if they are aligned |
| `Ext4Layout.RecordsInsideExactly` | app/src/main/cpp/ext4_reader.cpp:201-241 | over all geometries a superblock can declare, no 32-bit inode number makes the reader copy a descriptor or an inode record from outside a block buffer if and only if each of the two tables is aligned or ends before its first crossing slot |
| `Ext4Layout.LongTablesExactly` | app/src/main/cpp/ext4_reader.cpp:201-241 | with at least as many inodes a group and as many groups as a block has bytes, that is exactly the geometries in which both sizes are aligned |
| `Ext4Layout.ShortTableFits` | app/src/main/cpp/ext4_reader.cpp:226-241 | eight inodes of 144 bytes a group are not aligned and still never cross a block |
| `Ext4Layout.InodeAtAddress` | app/src/main/cpp/ext4_reader.cpp:223-243 | readInode returns the bytes at flat address itable(group) * block size + index * inode size |
| `Ext4Layout.InodeWraps` | app/src/main/cpp/ext4_reader.cpp:229-236 | where table block and slot pass 2^64, block numbers go round: the record is read at the address modulo 2^64 blocks |
| `Ext4Layout.BlockSizeWraps` | app/src/main/cpp/ext4_reader.cpp:186-186 | wherever the shift is defined the block size is the 32-bit product of 1024 and the power of two |
| `Ext4Layout.InodesDisjoint` | app/src/main/cpp/ext4_reader.cpp:226-234 | different inode numbers get disjoint byte ranges whenever the tables of different groups are disjoint |
| `Ext4Files.UnfoldsUnique` | app/src/main/cpp/ext4_reader.cpp:245-273 | an on-disk extent tree has at most one finite unfolding |
| `Ext4Files.WalkEndsExactly` | app/src/main/cpp/ext4_reader.cpp:245-273 | the walk over an extent tree ends inside its nodes if and only if no path of readable blocks below the node is longer than the disk has blocks: a condition that can be checked before the walk |
| `Ext4Files.CycleNeverEnds` | app/src/main/cpp/ext4_reader.cpp:264-270 | a cycle of index nodes of any length is walked for ever, since the source never compares depths |
| `Ext4Files.DecreasingDepthsUnfold` | app/src/main/cpp/ext4_reader.cpp:264-270 | if every child that carries the magic has a strictly smaller eh_depth, the walk ends |
| `Ext4Files.SelfReferenceNeverUnfolds` | app/src/main/cpp/ext4_reader.cpp:264-270 | in particular an index node that lists its own block has no finite unfolding |
| `Ext4Files.WrittenTreeUnfolds` | app/src/main/cpp/ext4_reader.cpp:245-273 | a tree written in the ext4 format is read back in order, with both length codings of the 32768 rule and all 48-bit block numbers; nodes that cannot be read are left out and nothing else |
| `Ext4Files.ReachedAreExtents` | app/src/main/cpp/ext4_reader.cpp:264-270 | the walk reaches no extent that is not in the written tree, and all of them if every node can be read |
| `Ext4Files.CopySucceeds` | app/src/main/cpp/ext4_reader.cpp:289-303 | the copy fails if and only if a block that is actually needed cannot be read; extents that run short are no failure |
| `Ext4Files.CopiedBytes` | app/src/main/cpp/ext4_reader.cpp:286-301 | the output has min(size, block size * blocks) bytes and byte i is byte i mod bs of the (i / bs)-th listed block |
| `Ext4Files.NeededIsCeiling` | app/src/main/cpp/ext4_reader.cpp:293-299 | the number of blocks touched is the size divided by the block size, rounded up |
| `Ext4Contents.HoleFreeReads` | app/src/main/cpp/ext4_reader.cpp:245-304 | for hole-free, initialised extents in logical order the copy is exactly the file the extents define |
| `Ext4Contents.CorrectExactlyWhenHoleFree` | app/src/main/cpp/ext4_reader.cpp:253-261 | over all disk contents the reader, which never looks at ee_block, delivers the file of the ext4 format if and only if the needed logical blocks are mapped from 0 on without holes by initialised extents |
| `Ext4Contents.RightExactlyWhenAgreeing` | app/src/main/cpp/ext4_reader.cpp:264-301 | over all disk contents, copying the extents that were reached delivers the file with all its extents if and only if each needed block of the file stands at its place among them |
| `Ext4Contents.PartIsWholeFile` | app/src/main/cpp/ext4_reader.cpp:264-301 | when nodes of the tree were lost, a success is the whole file, over all disk contents, if the extents reached are hole-free over its size, and only then if no two extents share a block |
| `Ext4Paths.WrittenFileIsRead` | app/src/main/cpp/ext4_reader.cpp:275-304 | an inode whose tree was written reads as exactly the content of its extents if those reached through readable nodes are hole-free, on readable blocks |
| `Ext4Paths.WrittenExtents` | app/src/main/cpp/ext4_reader.cpp:264-304 | what is read of a written tree comes from below its readable nodes, and a node that cannot be read does not make the read fail |
| `Ext4Paths.FileStuckExactly` | app/src/main/cpp/ext4_reader.cpp:245-304 | reading by inode leaves its buffers or never returns if and only if the inode can be read and its tree leaves its nodes or runs deeper than the disk has blocks |
| `Ext4Paths.ReadFileBytes` | app/src/main/cpp/ext4_reader.cpp:275-304 | any file read: when it succeeds, where each byte comes from, and that a success has the full size if and only if the listed blocks hold as much |
| `Ext4Paths.ComponentsJoin` | app/src/main/cpp/ext4_reader.cpp:329-334 | a slash separates components and nothing else: trailing, doubled and "." parts vanish, for all texts on both sides |
| `Ext4Paths.DotsVanish` | app/src/main/cpp/ext4_reader.cpp:329-337 | doubled slashes and "." parts count for nothing, for all texts around them, and ".." is looked up like any name |
| `Ext4Paths.ResolveJoin` | app/src/main/cpp/ext4_reader.cpp:326-339 | resolving p/q is resolving the components of q from the inode p resolves to, for all p and q |
| `Ext4Paths.ResolveChild` | app/src/main/cpp/ext4_reader.cpp:326-339 | resolving p + "/" + name is looking name up in the directory p resolves to, for all p |
| `Ext4Paths.RootResolves` | app/src/main/cpp/ext4_reader.cpp:326-327 | the empty path and "/" agree with the component walk |
| `Ext4Paths.LookupFindsFirst` | app/src/main/cpp/ext4_reader.cpp:306-324 | when every live name fits, a lookup finds the first live entry with the name, or 0 exactly when there is none |
| `Ext4Paths.LeadsNowhere` | app/src/main/cpp/ext4_reader.cpp:306-392 | a path that leads nowhere or to a directory that cannot be read is neither read nor listed, and nothing is found below it |
| `Ext4Paths.SortingIsDetermined` | app/src/main/cpp/ext4_reader.cpp:379-383 | with no two entries of the same kind and name the comparator admits only one sorted order |
| `Ext4Paths.SortedInOrder` | app/src/main/cpp/ext4_reader.cpp:379-383 | what the comparator sorts is in the listing order: directories before everything else, and within a kind names by the first byte in which they differ, a proper beginning first |
| `Ext4Paths.ListedPathResolves` | app/src/main/cpp/ext4_reader.cpp:341-386 | the path a listing prints for a plain name resolves to what a lookup of that name finds, which with unique names is the listed inode |
| `Ext4Directories.ScanFindsRecords` | app/src/main/cpp/ext4_reader.cpp:349-377 | scanning a directory as a writer lays it out finds exactly its records in order, deleted records and slack included |
| `Ext4Directories.WrittenDirectoryResolves` | app/src/main/cpp/ext4_reader.cpp:306-339 | below a written directory a plain name resolves to an inode if and only if a live record gives it that inode, and to nothing if none does |
| `Ext4Directories.PathIsInode` | app/src/main/cpp/ext4_reader.cpp:388-392 | below a written directory reading "p/name" reads the inode that a live record gives the name, and fails when no live record has it |
| `Ext4Directories.WrittenPathReads` | app/src/main/cpp/ext4_reader.cpp:223-392 | from path to bytes: "p/name" reads as exactly the content of the extents of its inode, when descriptor, inode record and extent tree were written to the disk, the tree hole-free on readable blocks |
| `Ext4Directories.WrittenDirectoryLists` | app/src/main/cpp/ext4_reader.cpp:341-377 | listing a written directory shows exactly its live records but "." and "..", in their order, each with its name, inode and path, as a directory if and only if its type is 2 and as a symbolic link if and only if it is 7, and with the size written into its inode, or 0 when that cannot be read |
| `Ext4Reader.Ext4Reader.Open` | app/src/main/cpp/ext4_reader.cpp:157-164 | a reader results exactly when the superblock can be read and has the magic; it is attached to the disk the device shows, and ready for every other call if that disk is mounted with its geometry |
| `Ext4Reader.Ext4Reader.Init` | app/src/main/cpp/ext4_reader.cpp:166-199 | the geometry fields are those of the superblock of the disk the device shows |
| `Ext4Reader.Ext4Reader.ReadDisk` | app/src/main/cpp/ext4_reader.cpp:207-210 | one block read through the device interface, whole or refused |
| `Ext4Reader.Ext4Reader.GetInodeTableBlock` | app/src/main/cpp/ext4_reader.cpp:201-221 | the table block of a group as the disk-level layout defines it, 0 when its descriptor cannot be read |
| `Ext4Reader.Ext4Reader.ReadInode` | app/src/main/cpp/ext4_reader.cpp:223-243 | the inode record the disk-level layout defines; the caller buffer is untouched on failure |
| `Ext4Reader.Ext4Reader.ReadExtentTree` | app/src/main/cpp/ext4_reader.cpp:245-273 | for every tree with a finite unfolding the walk ends and appends exactly the in-order leaf extents, leaving what was in the vector before, although one child buffer is reused for all children |
| `Ext4Reader.Ext4Reader.ReadLeaf` | app/src/main/cpp/ext4_reader.cpp:253-261 | the leaf loop appends the extents of the node in order |
| `Ext4Reader.Ext4Reader.ReadIndex` | app/src/main/cpp/ext4_reader.cpp:262-272 | the child loop with its shared buffer appends the extents below all children |
| `Ext4Reader.Ext4Reader.ReadChild` | app/src/main/cpp/ext4_reader.cpp:268-270 | a child that cannot be read contributes nothing and stops nothing |
| `Ext4Reader.Ext4Reader.ReadFileDataByInode` | app/src/main/cpp/ext4_reader.cpp:275-304 | success and contents of a file read in terms of inode, extent tree and block copy |
| `Ext4Reader.Ext4Reader.CopyRanges` | app/src/main/cpp/ext4_reader.cpp:286-303 | the loop over ranges copies what the flat block list gives |
| `Ext4Reader.Ext4Reader.CopyRange` | app/src/main/cpp/ext4_reader.cpp:293-300 | the inner loop copies one range and stops as soon as nothing remains |
| `Ext4Reader.Ext4Reader.FindChildInode` | app/src/main/cpp/ext4_reader.cpp:306-324 | the inode found for a name in a directory, 0 when there is none or the directory cannot be read |
| `Ext4Reader.Ext4Reader.ScanFor` | app/src/main/cpp/ext4_reader.cpp:310-323 | the scan by rec_len finds what a search of the entry list finds |
| `Ext4Reader.Ext4Reader.ResolvePath` | app/src/main/cpp/ext4_reader.cpp:326-339 | the getline loop resolves what the component walk resolves |
| `Ext4Reader.Ext4Reader.ListDirectory` | app/src/main/cpp/ext4_reader.cpp:341-386 | on success the entries are a permutation of the listing, directories first and each kind in byte order of the names; on failure the vector is empty |
| `Ext4Reader.Ext4Reader.CollectEntries` | app/src/main/cpp/ext4_reader.cpp:349-377 | the scan collects the visible live entries in directory order |
| `Ext4Reader.Ext4Reader.ReadFile` | app/src/main/cpp/ext4_reader.cpp:388-392 | success and contents of reading a path |
| `Ext4Reader.SortEntries` | app/src/main/cpp/ext4_reader.cpp:379-383 | a sorted permutation by the comparator of the listing |
| `MountTransparency.OpenedIsValid` | app/src/main/cpp/block_device.cpp:70-125 | every device that opens has a tiling index of 32-bit fill words |
| `MountTransparency.OpenedIsRaw` | app/src/main/cpp/block_device.cpp:70-169 | for every sparse file the device opens whose RAW data is complete, well-formed or not, the disk shown is that of the raw device on the expansion |
| `MountTransparency.OpenedMountsLikeRaw` | app/src/main/cpp/ext4_reader.cpp:166-392 | mounting, resolving, reading and listing answer the same for every path over the sparse device and over the raw device on its expansion |
| `MountTransparency.WrittenMountsLikeRaw` | app/src/main/cpp/ext4_reader.cpp:166-392 | the same for every chunk list: write an image, mount it, and every answer is that of the plain image |
| `Ext4Records.SuperblockRoundTrip` | app/src/main/cpp/ext4_reader.cpp:178-190 | a superblock written field by field in struct order is taken for exactly the geometry it declares, with the defaults for zero sizes and the 64-bit bit; any other magic is refused |
| `Ext4Records.DescriptorRoundTrip` | app/src/main/cpp/ext4_reader.cpp:212-220 | the inode table block of a descriptor written in struct order is read back, 64 bits or 32 |
| `Ext4Records.InodeRoundTrip` | app/src/main/cpp/ext4_reader.cpp:106-123 | size and block area of an inode written in struct order are read back |
| `Ext4Records.TableOfGroup` | app/src/main/cpp/ext4_reader.cpp:201-221 | for every block size and every group, a descriptor written at the address the format gives it, behind the block of the superblock, is the one whose table block is taken |
| `Ext4Records.RecordIsRead` | app/src/main/cpp/ext4_reader.cpp:223-243 | for every inode number, the record written at slot (ino - 1) mod inodes-per-group of the table its group descriptor names is what is read; with table block 0 nothing is |
| `Ext4Records.FileOnDiskIsRead` | app/src/main/cpp/ext4_reader.cpp:223-304 | a file whose group descriptor and inode record stand at their flat addresses and whose tree is written hole-free is read as exactly the content its extents define |
| `Ext4Image.ImageMounts` | app/src/main/cpp/ext4_reader.cpp:166-199 | a small image, written block by block, mounts with the geometry it was written for |
| `Ext4Image.ImageFiles` | app/src/main/cpp/ext4_reader.cpp:223-304 | its root inode and its file inode are found through superblock, descriptor and table, and read as the directory and the content written |
| `Ext4Image.ImageResolves` | app/src/main/cpp/ext4_reader.cpp:306-386 | end to end, for any records that fit its one directory block: "/name" resolves to an inode if and only if a live record gives it, reading it fails when none does, and "/" lists exactly the visible records |
| `Ext4Image.ImageReads` | app/src/main/cpp/ext4_reader.cpp:341-392 | end to end, from path to bytes: when a live record names the file, reading "/name" gives exactly the content, and the listing shows its length |
| `Ext4Image.NodeBytes` | app/src/main/cpp/ext4_reader.cpp:125-152 | extent header, extents, index entries and directory records of the writers, byte by byte |
| `Ext4Image.SuperblockBytes` | app/src/main/cpp/ext4_reader.cpp:16-63 | the superblock fields of the writer, byte by byte |
| `Ext4Image.LostNodeIsSuccess` | app/src/main/cpp/ext4_reader.cpp:264-303 | the same image with a root inode whose leaf node is lost behind its end: whatever is in the root block, reading it is a success without a byte |
| `Ext4Image.PackedImageOpens` | app/src/main/cpp/block_device.cpp:70-169 | packed as a sparse file the same image opens to the same disk, so all of the above holds of the sparse file |
| `InitScript.ParseKeeps` | app/src/main/cpp/init_parser.cpp:53-144 | parsing any text into any consistent table keeps the index map the exact inverse of the service vector and never changes what is already defined |
| `InitScript.NamesUnique` | app/src/main/cpp/init_parser.cpp:69-75 | in a consistent table no two services share a name |
| `InitScript.IndexAgreesWithSearch` | app/src/main/cpp/init_parser.cpp:37-51 | looking a name up in the index map finds what a linear search over the services finds |
| `InitScript.ParseConcatenation` | app/src/main/cpp/init_parser.cpp:53-144 | parsing A and then B equals parsing their concatenation whenever the first significant line of B is a header |
| `InitScript.ConcatenationExact` | app/src/main/cpp/init_parser.cpp:81-144 | for all texts A of whole lines and B: the two parses equal the parse of the concatenation if and only if A ends in no section, or in an action and B starts with a header, or in a service that is dropped as a second definition or left as it is by the lines of B before its first header |
| `InitScript.ServiceTakesDirective` | app/src/main/cpp/init_parser.cpp:121-140 | a service at the end of A takes up a "disabled" line at the start of B: there the two parses differ, whatever its name and path |
| `InitScript.PrintParse` | app/src/main/cpp/init_parser.cpp:53-144 | printing any list of printable actions and services and parsing the text into any table defines exactly those items, first definition of a name winning |
| `InitScript.PrintDefines` | app/src/main/cpp/init_parser.cpp:53-144 | parsing a printed text appends its actions in order and, in order, each service not defined yet, as it is, the first definition of a name winning; nothing else changes |
| `InitScript.BareService` | app/src/main/cpp/init_parser.cpp:100-111 | a service header alone defines a stopped service of class "main" and user "root", neither critical nor disabled |
| `InitScript.CommentsDoNothing` | app/src/main/cpp/init_parser.cpp:81-88 | comments, indented or not, and lines of blanks change nothing wherever they stand |
| `InitScript.OtherDirectives` | app/src/main/cpp/init_parser.cpp:121-140 | every directive but the six, and those with too few words, leaves a service as it is |
| `InitScript.DirectivesAgain` | app/src/main/cpp/init_parser.cpp:121-140 | a repeated directive replaces classes and user, and adds to groups and variables |
| `InitScript.WordsPart` | app/src/main/cpp/init_parser.cpp:19-27 | exactly the six stream blanks part words |
| `InitScript.RunService` | app/src/main/cpp/init_parser.cpp:100-141 | the lines printed for a service, read one by one, restore every field of it |
| `InitScript.ParseNeverRuns` | app/src/main/cpp/init_parser.cpp:100-111 | parsing never yields a running service or one with a pid |
| `InitParser.InitParser.FindService` | app/src/main/cpp/init_parser.cpp:37-51 | the index lookup returns what a linear search returns |
| `InitParser.InitParser.ParseScriptContent` | app/src/main/cpp/init_parser.cpp:53-149 | the line loop leaves the table the line-by-line specification gives, consistent if it was |
| `InitParser.InitParser.ParseLine` | app/src/main/cpp/init_parser.cpp:81-142 | one turn of the line loop, in place |
| `InitParser.InitParser.FinishCurrentSection` | app/src/main/cpp/init_parser.cpp:63-79 | closing a section pushes it unless it is nameless or its service name is taken |
| `InitParser.InitParser.SplitTokens` | app/src/main/cpp/init_parser.cpp:19-27 | stream extraction yields the maximal blank-free words in order |
| `InitParser.InitParser.LoadFromVfs` | app/src/main/cpp/init_parser.cpp:151-202 | the table is that of /init.rc, the .rc files of /system/etc/init in sorted order and the fallback services; it is consistent and its size is returned |
| `InitParser.LoadedTable` | app/src/main/cpp/init_parser.cpp:151-196 | after loading, whatever the scripts say, the index is exact and all five core services exist, scripts winning over the fallback |
| `InitParser.LoadedStopped` | app/src/main/cpp/init_parser.cpp:151-196 | no service of a freshly loaded table is running |
| `InitParser.RootScriptLoads` | app/src/main/cpp/init_parser.cpp:151-159 | what was printed into /init.rc is in the loaded table before everything else: its actions in order, its services as they are |
| `InitParser.ScannedScriptLoads` | app/src/main/cpp/init_parser.cpp:161-174 | what was printed into a scanned file with a name in ".rc" is defined right behind what the files before it define |
| `InitParser.OtherFilesIgnored` | app/src/main/cpp/init_parser.cpp:166-168 | directories and files with any other name, the bare ending included, change nothing |
| `InitParser.FallbackTable` | app/src/main/cpp/init_parser.cpp:176-196 | without any script the table is the five fallback services, field by field |
| `InitParser.LoaderPaths` | app/src/main/cpp/init_parser.cpp:154-163 | the two places the loader looks |
| `BootModel.CommandsReach` | app/src/main/cpp/boot_manager.cpp:148-181 | a "start" or "class_start" command reaches exactly the service or class it names; "mkdir" and "setprop" touch no service |
| `BootModel.StartRuns` | app/src/main/cpp/boot_manager.cpp:103-117 | starting a stopped service by name leaves it running with the next pid and touches nothing else; one that runs, or an unknown name, is left alone |
| `BootModel.StopStops` | app/src/main/cpp/boot_manager.cpp:119-130 | stopping a service by name leaves it stopped without a pid, whether or not it ran |
| `BootModel.PassMeans` | app/src/main/cpp/boot_manager.cpp:207-221 | a class pass turns on exactly the stopped, non-disabled services of the classes |
| `BootModel.CommandsJoin` | app/src/main/cpp/boot_manager.cpp:138-146 | the commands of a trigger are collected action by action, in order |
| `BootModel.StepKeeps` | app/src/main/cpp/boot_manager.cpp:66-266 | every lock-held region and atomic store of worker, controller and service calls keeps the invariant, and pids are only ever appended |
| `BootModel.RunKeepsInv` | app/src/main/cpp/boot_manager.cpp:66-266 | the invariant over every interleaving of any length |
| `BootModel.EveryRunIsSafe` | app/src/main/cpp/boot_manager.cpp:66-266 | in every interleaving: RUNNING exactly with a pid of at least 2000, running pids distinct and below the counter, no pid handed out twice, at most one worker alive, phases a prefix of the five boot phases |
| `BootModel.CompletedMeansUp` | app/src/main/cpp/boot_manager.cpp:207-256 | in every run that shows COMPLETED each non-disabled core, main or animation service not stopped or loaded since the run began is RUNNING, and a running disabled service was asked for by name with no stop or load since |
| `BootModel.UninterruptedBoot` | app/src/main/cpp/boot_manager.cpp:185-266 | a boot that no stop or load interrupts, under any interleaved starts, ends with every non-disabled boot service RUNNING |
| `BootModel.BootProgresses` | app/src/main/cpp/boot_manager.cpp:185-266 | with enough worker steps among any events that neither stop the boot nor load a table, a boot under way shows COMPLETED |
| `BootModel.BootCompletes` | app/src/main/cpp/boot_manager.cpp:185-266 | from the spawn of its worker, an undisturbed boot whose worker takes 18 steps and one for each command of its four triggers reaches COMPLETED, with every non-disabled boot service RUNNING at that moment |
| `BootTrace.BootFollowsScript` | app/src/main/cpp/boot_manager.cpp:185-257 | in every interleaving that does not stop the boot, the worker shows the five phases, starts the classes and runs the commands of the four triggers in exactly the order of the boot script: each command while the phase of its trigger is shown |
| `BootTrace.OtherTriggers` | app/src/main/cpp/boot_manager.cpp:138-146 | an action with any other trigger has no part in a boot |
| `BootTrace.BootActionRuns` | app/src/main/cpp/boot_manager.cpp:228-255 | the commands of an "on boot" action run, in order, after BOOT is shown and before COMPLETED |
| `BootTrace.ActsMean` | app/src/main/cpp/boot_manager.cpp:148-182 | each act of the worker is what its name says: a phase shown, a class pass or a command; its other steps touch no phase and no service |
| `BootTrace.StartSpawns` | app/src/main/cpp/boot_manager.cpp:66-81 | a call of startBootSequence leads in every interleaving to a new worker at the start of its program, with the flag set and phase IDLE, after four controller steps |
| `BootTrace.CallStartStarts` | app/src/main/cpp/boot_manager.cpp:66-70 | the call is taken up if and only if no boot is in progress |
| `BootTrace.StoppedWorkerLeaves` | app/src/main/cpp/boot_manager.cpp:83-88 | in every interleaving a worker whose flag was cleared finishes the acts before its next check and leaves there: no later phase is shown and no later command runs |
| `BootTrace.CallStopStops` | app/src/main/cpp/boot_manager.cpp:83-101 | the call clears the flag; without a worker, two controller steps later nothing runs and phase IDLE is shown |
| `BootTrace.LeftThenStops` | app/src/main/cpp/boot_manager.cpp:86-101 | the same once the worker has left |
| `BootTrace.BootEnds` | app/src/main/cpp/boot_manager.cpp:253-265 | behind COMPLETED the worker clears the flag and leaves, and the next start is taken up |
| `ServiceProperties.AgreesExactly` | app/src/main/cpp/boot_manager.cpp:83-130 | in every interleaving with anything else that writes properties: after which steps `init.svc.<name>` says "running" exactly while the service runs, as an if-and-only-if in terms of what the step wrote, changed or found |
| `ServiceProperties.PropertyFollowsService` | app/src/main/cpp/boot_manager.cpp:83-250 | over every run from the start in which nobody else writes the property and no table is loaded while it says "running", it says "running" exactly while the service runs |
| `ServiceProperties.SeedingClaims` | app/src/main/cpp/boot_manager.cpp:202-205 | the property service started in the INIT phase claims three services to run; property and service then agree if and only if the service already runs |
| `ServiceProperties.SetpropCommand` | app/src/main/cpp/boot_manager.cpp:156-163 | a printed "setprop" command writes exactly its key and value and touches no service |
| `ServiceProperties.AnnouncedWords` | app/src/main/cpp/boot_manager.cpp:83-130 | word for word what a start, a stop, a pass, a reset and the end of a boot write into the properties |
| `BootModel.StopLeavesNothing` | app/src/main/cpp/boot_manager.cpp:83-101 | when stopBootSequence finishes, in whatever interleaving, no worker is alive, the phase is IDLE and nothing is RUNNING |
| `BootModel.AllPhasesInOrder` | app/src/main/cpp/boot_manager.cpp:189-257 | the phases the worker sets are the five boot phases in order |
| `BootManager.BootManager.LoadInitFromVfs` | app/src/main/cpp/boot_manager.cpp:32-35 | reloading is a step of the state machine with a freshly parsed table, and keeps the invariant |
| `BootManager.BootManager.StartService` | app/src/main/cpp/boot_manager.cpp:103-117 | starting a service by name is the atomic step of the state machine, and announces "running" exactly when it starts it; true exactly when the name exists |
| `BootManager.BootManager.StopService` | app/src/main/cpp/boot_manager.cpp:119-130 | stopping a service by name is the atomic step of the state machine, and announces "stopped" whether or not it ran; true exactly when the name exists |
| `BootManager.BootManager.RestartService` | app/src/main/cpp/boot_manager.cpp:132-135 | with nothing in between, restart is a stop and a start, announced in that order; true exactly when the name exists |
| `BootManager.BootManager.StartClassPass` | app/src/main/cpp/boot_manager.cpp:207-221 | the loop over services and classes starts each wanted one once, in order, with consecutive fresh pids, and announces each in that order |
| `BootManager.BootManager.CollectCommands` | app/src/main/cpp/boot_manager.cpp:138-146 | the commands of all actions with the trigger, concatenated in order |
| `BootManager.BootManager.ExecuteCommand` | app/src/main/cpp/boot_manager.cpp:148-182 | the effect of one command on the service table and the properties |
| `BootManager.BootManager.WorkerStep` | app/src/main/cpp/boot_manager.cpp:185-266 | the boot thread up to its next lock release or atomic store is a worker step of the state machine and keeps the invariant; with it go the start of the property service, the announcements and the three boot properties |
| `BootManager.BootManager.CallStart` | app/src/main/cpp/boot_manager.cpp:66-74 | a boot in progress is left alone, otherwise the call goes on to its join |
| `BootManager.BootManager.CallStop` | app/src/main/cpp/boot_manager.cpp:83-84 | the flag is cleared before the join |
| `BootManager.BootManager.ControllerStep` | app/src/main/cpp/boot_manager.cpp:72-99 | the remaining regions of start and stop are controller steps of the state machine and keep the invariant; a reset announces every service it stops |
| `PropertyFile.WholeEntry` | app/src/main/cpp/hook_engine.cpp:291-304 | a line that fits the buffer, with its newline or just without it, is read back as its key and value, brackets in the value included |
| `PropertyFile.CutEntry` | app/src/main/cpp/hook_engine.cpp:289-305 | a line cut inside its value is lost or read back short, under its own key |
| `PropertyFile.LineEffect` | app/src/main/cpp/hook_engine.cpp:289-305 | what one printed line does to the map being loaded, whether or not it fits the 1024-character buffer |
| `PropertyFile.LoadedIsClean` | app/src/main/cpp/hook_engine.cpp:289-305 | whatever the file holds, loaded keys and values are free of line ends, NUL and, for keys, closing brackets, and short |
| `PropertyFile.LoadLines` | app/src/main/cpp/hook_engine.cpp:289-305 | loading the lines of different keys: survivors are there unchanged, no other key of theirs is right |
| `PropertyFile.PrintedLoads` | app/src/main/cpp/hook_engine.cpp:278-308 | of the print of any clean map the reader finds every property that fits the format, no right value for one that does not, and no other key |
| `PropertyFile.RoundTripExact` | app/src/main/cpp/hook_engine.cpp:278-308 | the reader recovers the whole printed map if and only if keys are free of "]", newline and NUL, values of newline and NUL, and key and value together have at most 1017 characters |
| `PropertyWire.LegacyRoundTrip` | app/src/main/cpp/property_service.cpp:324-337 | a legacy 128-byte message, with anything behind it, sets exactly the property it encodes, up to 32 and 92 unterminated characters |
| `PropertyWire.Setprop2RoundTrip` | app/src/main/cpp/property_service.cpp:339-358 | a length-prefixed message that fits one read sets exactly the property it encodes, whatever bytes it holds |
| `PropertyWire.TextIsNotBinary` | app/src/main/cpp/property_service.cpp:324-361 | no text starting with a printable character is taken for a binary message |
| `PropertyWire.CommandBytes` | app/src/main/cpp/property_service.cpp:18-26 | the first bytes and the field offsets of the two binary formats, byte by byte |
| `PropertyWire.OutOfBoundsExactly` | app/src/main/cpp/property_service.cpp:339-358 | a message is read past its buffer if and only if one of its two 32-bit length sums passes 2^32 and comes out small |
| `PropertyWire.WrappingName` | app/src/main/cpp/property_service.cpp:339-358 | a length-prefixed message with a name length from 2^32 - 12 on is such a message if and only if it has at least nine bytes and what the sum wraps to is not longer than it |
| `PropertyWire.FallsThrough` | app/src/main/cpp/property_service.cpp:324-361 | a binary command that is too short, or whose name does not fit, is read as text, and so is any other first word |
| `PropertyWire.EmptyKeys` | app/src/main/cpp/property_service.cpp:330-392 | an empty name sets nothing in the legacy format and in an assignment |
| `PropertyWire.AssignmentRoundTrip` | app/src/main/cpp/property_service.cpp:381-392 | "key=value" with any trailing blanks, unless it begins like one of the two commands, sets key to value if and only if key, sign and value fit one read of 1023 bytes |
| `PropertyWire.SetpropRoundTrip` | app/src/main/cpp/property_service.cpp:364-374 | "setprop key value" with any trailing blanks, blanks inside the value included, sets key to value if and only if the command fits one read |
| `PropertyWire.GetpropRoundTrip` | app/src/main/cpp/property_service.cpp:375-380 | "getprop key" asks for exactly that key if and only if it fits one read |
| `PropertyWire.BlanksAround` | app/src/main/cpp/property_service.cpp:360-392 | blanks in front of and behind a text message, its key and its value count for nothing, in all three text forms |
| `PropertyWire.EmptyValueIgnored` | app/src/main/cpp/property_service.cpp:364-374 | "setprop key " of any length sets nothing: trimming leaves no blank to split at, so an empty value has no such message |
| `PropertyService.BuildPropLine` | app/src/main/cpp/property_service.cpp:213-228 | an indented or blank-padded "key=value" line defines exactly key |
| `PropertyService.OtherLines` | app/src/main/cpp/property_service.cpp:214-228 | comments, lines without "=" and lines with nothing in front of it define nothing |
| `PropertyDefaults.FirstFiles` | app/src/main/cpp/property_service.cpp:157-251 | the file after a first start, and after loading an empty build.prop, line by line |
| `Text.TrimTakes` | app/src/main/cpp/property_service.cpp:36-41 | exactly blank, tab, carriage return and line feed are trimmed |
| `PropertyService.RunCoherent` | app/src/main/cpp/property_service.cpp:157-251 | over every sequence of start, stop, set, build.prop load and client message (none of them read past its buffer) the file is always the print of the current map |
| `PropertyService.ReaderSeesStore` | app/src/main/cpp/hook_engine.cpp:278-308 | after any such sequence the reader finds exactly the properties of the map if and only if all of them fit the file format |
| `PropertyService.StepWrites` | app/src/main/cpp/property_service.cpp:157-251 | what each event writes for a property: a set, the last line of build.prop that defines it, a default it lacks, a seed of a first start, or nothing, and then it stays as it was |
| `PropertyService.LastSetWins` | app/src/main/cpp/hook_engine.cpp:817-832 | over any run the hooked getter returns the value last written for a property: all of it up to 91 characters, and its first 91 otherwise |
| `PropertyService.GetAfterSet` | app/src/main/cpp/hook_engine.cpp:817-832 | in particular right after a set, directly or by a client message of any format |
| `PropertyService.StartKeepsExactly` | app/src/main/cpp/property_service.cpp:157-173 | a start keeps the value a property was set to if and only if it does not seed it with another one |
| `PropertyService.SeedingOverwrites` | app/src/main/cpp/property_service.cpp:157-175 | set before the first start, "sys.boot_completed" reads back as "1" whatever was set |
| `PropertyService.PropertyService.FlushPropertiesToFile` | app/src/main/cpp/property_service.cpp:279-297 | sorting and printing the entries writes the print of the map, if a path is known |
| `PropertyService.PropertyService.SortKeys` | app/src/main/cpp/property_service.cpp:284-285 | the keys in strictly ascending order, each once |
| `PropertyService.PropertyService.SetProperty` | app/src/main/cpp/property_service.cpp:244-251 | one set and its flush, as a step of the store |
| `PropertyService.PropertyService.GetProperty` | app/src/main/cpp/property_service.cpp:253-260 | while the file is the print of the map, the service and the hooked getter agree on every property that fits the file format, up to the cut at 91 characters, and on every absent one |
| `PropertyService.PropertyService.Start` | app/src/main/cpp/property_service.cpp:56-182 | seeding defaults and flushing, as a step of the store; nothing is seeded when the socket fails |
| `PropertyService.PropertyService.LoadFromBuildProp` | app/src/main/cpp/property_service.cpp:206-242 | the build.prop lines win over the defaults, which win over nothing |
| `PropertyService.PropertyService.HandleClient` | app/src/main/cpp/property_service.cpp:318-397 | a message of any format whose length sums do not wrap has the effect its decoding says, and only getprop is answered with a value |
| `PropertyService.StrChr` | app/src/main/cpp/hook_engine.cpp:292-292 | position of a character in the C string from an offset |
| `PropertyService.StrRChr` | app/src/main/cpp/hook_engine.cpp:297-297 | position of the last such character |
| `PropertyService.ParseLine` | app/src/main/cpp/hook_engine.cpp:290-304 | overwriting the brackets of the line buffer with NULs and taking the C strings between them yields the entry of the line |
| `PropertyService.LoadPropertyCache` | app/src/main/cpp/hook_engine.cpp:285-307 | the fgets loop through one buffer loads the map the line-wise specification gives |
| `PropertyService.SystemPropertyGet` | app/src/main/cpp/hook_engine.cpp:817-832 | the caller gets the value in the file with a terminator, whole up to 91 characters and its first 91 otherwise, and its length; or the answer of the platform |
| `LogcatBroker.WindowLog` | app/src/main/cpp/logcat_broker.cpp:242-255 | logging keeps the buffer a suffix of the history, numbered without gaps up to the counter and never below the last maxEntries |
| `LogcatBroker.WindowTombstone` | app/src/main/cpp/logcat_broker.cpp:447-459 | a tombstone, which evicts nothing, keeps the same and may exceed the limit by one |
| `LogcatBroker.LogcatBroker.AppendLog` | app/src/main/cpp/logcat_broker.cpp:227-256 | one entry in, the oldest out of a full buffer, counters up, window kept |
| `LogcatBroker.LogcatBroker.InjectTombstone` | app/src/main/cpp/logcat_broker.cpp:447-459 | a crash entry in, nothing out, window kept |
| `LogcatBroker.LogcatBroker.ClearLogs` | app/src/main/cpp/logcat_broker.cpp:524-527 | an empty buffer with the sequence counter going on |
| `LogcatBroker.SizeBounds` | app/src/main/cpp/logcat_broker.cpp:242-255 | between clears the buffer never shrinks and outgrows its limit by at most the tombstones since |
| `LogcatBroker.WithinLimitExactly` | app/src/main/cpp/logcat_broker.cpp:251-254 | between clears a run stays within the limit if and only if every tombstone comes while the buffer, one entry an event, still has room |
| `LogcatBroker.OvershootStays` | app/src/main/cpp/logcat_broker.cpp:251-254 | one tombstone on a full buffer keeps it over the limit through any number of ordinary entries |
| `LogcatBroker.FilterMembers` | app/src/main/cpp/logcat_broker.cpp:471-477 | the filtered log holds exactly the entries of the asked buffer with at least the asked priority |
| `LogcatBroker.FilterEach` | app/src/main/cpp/logcat_broker.cpp:471-477 | each entry is kept at its place in the order or left out |
| `LogcatBroker.LogcatBroker.GetRecentLogs` | app/src/main/cpp/logcat_broker.cpp:464-487 | scanning backwards and reversing yields the last maxLines entries of the filtered buffer in chronological order, a negative limit meaning none |
| `LogcatBroker.LogcatBroker.HandleLogdwPacket` | app/src/main/cpp/logcat_broker.cpp:287-330 | a datagram appends exactly the entry its decoding gives, dropping the oldest of a full buffer, and moves the counters by it; a bare header changes nothing |
| `LogcatBroker.LogcatBroker.ParsePacket` | app/src/main/cpp/logcat_broker.cpp:287-327 | the loops over tag and message decode the packet as specified |
| `LogcatBroker.PacketRoundTrip` | app/src/main/cpp/logcat_broker.cpp:295-329 | every packet of a log writer is logged with the fields it encodes: unknown buffers become 0, unknown priorities 4, an empty tag "GsiGuest", and line ends behind the message go |
| `LogcatBroker.ShortPackets` | app/src/main/cpp/logcat_broker.cpp:287-327 | datagrams shorter than a header are a message of their own, a bare header is nothing, and a packet that ends inside its tag has an empty message |
| `AudioBridge.PushSlot` | app/src/main/cpp/audio_bridge.cpp:75-78 | storing at the write slot appends to the queued samples, at any wrap position |
| `AudioBridge.PopSlot` | app/src/main/cpp/audio_bridge.cpp:92-95 | reading at the read slot takes the oldest queued sample, at any wrap position |
| `AudioBridge.AudioBridge.Initialize` | app/src/main/cpp/audio_bridge.cpp:25-55 | an empty running queue, one channel only when asked for one |
| `AudioBridge.AudioBridge.Shutdown` | app/src/main/cpp/audio_bridge.cpp:57-66 | nothing queued, not running |
| `AudioBridge.AudioBridge.WriteSamples` | app/src/main/cpp/audio_bridge.cpp:68-84 | as many samples as fit are queued behind the others, as a write step of a bounded FIFO; write position and read position stay apart by the queued count modulo the capacity |
| `AudioBridge.AudioBridge.ReadSamples` | app/src/main/cpp/audio_bridge.cpp:86-109 | the oldest samples come out, as a read step of a bounded FIFO, the rest of the request is silence, and an empty read counts as underrun |
| `AudioBridge.ReadsArePrefix` | app/src/main/cpp/audio_bridge.cpp:68-109 | over every run the samples read are a prefix of the samples accepted and the difference is what is queued, never more than 65536 |

## Left out

- Ext4Reader.Ext4Reader.Open: assumes a device block size of 1024 or of at least 1280, since for others the source copies the superblock from outside its buffer.
- Ext4Reader.Ext4Reader.GetInodeTableBlock: assumes that device and file system block size agree and that both tables are aligned (`Valid`); the source checks neither. With larger device blocks a read overruns the buffer; with smaller ones a partly filled buffer is decoded; unaligned tables that are short enough (`Ext4Layout.TablesAddressable`) would be read correctly but are not covered.
- Ext4Reader.Ext4Reader.ReadInode: same assumption.
- Ext4Reader.Ext4Reader.ReadExtentTree: assumes a finite unfolding whose entries lie inside their node (exactly the condition of `Ext4Files.WalkEndsExactly`); without it the source does not return or reads outside its buffer.
- Ext4Reader.Ext4Reader.ReadFileDataByInode: assumes the same of the inode's tree (`Ext4Paths.FileStuckExactly`), and that the vector can be grown to the declared file size.
- Ext4Reader.Ext4Reader.FindChildInode: assumes that live names of the wanted length lie inside the directory data.
- Ext4Reader.Ext4Reader.ListDirectory: assumes that all live names lie inside the directory data; std::sort is taken at its contract, as an insertion sort, so ties may fall in any order.
- Ext4Layout.InodeAtAddress: the address must lie on a disk all of whose blocks can be read and of fewer than 2^64 blocks, because only such a disk is one byte string.
- Ext4Directories.WrittenPathReads: live records of the directory carry different names; otherwise the first one is found (`Ext4Paths.LookupFindsFirst`).
- Ext4Paths.ListedPathResolves: names that are empty, "." or hold a slash are excluded; a listing can contain them, a path cannot name them.
- SparseRoundTrip.SparseIsRaw: the expanded image must be shorter than 2^63 bytes, as any file is.
- MountTransparency.OpenedMountsLikeRaw: an image with RAW data missing at the end of its file has no plain expansion to compare with.
- BlockDevice.IBlockDevice.ReadBlock: the virtual interface is a closed sum of the two devices.
- BlockDevice.SparseBlockDevice.BuildIndex: file offsets and block numbers are unbounded; 2^32 chunks of 2^32 blocks stay below their 64-bit widths. Allocation failure is not modelled.
- BootManager.BootManager.ControllerStep: one controlling thread calls start and stop; two of them at once, which the source does not guard against either, are not modelled.
- BootManager.BootManager.RestartService: the two lock-held regions are separate steps of the state machine; the method itself is the run with nothing in between.
- BootManager.BootManager.StartService: the pid counter is unbounded, and log lines and callbacks are left out.
- BootManager.BootManager.ExecuteCommand: directories are not created for `mkdir`.
- BootManager.BootManager.WorkerStep: the start of the property service is one step with the phase store before it, and whether its socket could be opened is a parameter; directories and sleeps are left out.
- PropertyService.PropertyService.SetProperty: calls are taken one at a time; the source flushes outside its lock, so concurrent calls can leave an older print in the file.
- PropertyService.PropertyService.Start: one sandbox directory throughout, whose file can always be written; directories, the command line file, the getprop and setprop scripts, the socket and its poll loop are left out.
- PropertyService.PropertyService.HandleClient: assumes a message whose 32-bit length sums do not wrap (`PropertyWire.LengthsWrap`); for the others, exactly, the source reads past its buffer and what it then sets is undefined.
- PropertyService.RunCoherent: runs of messages whose length sums do not wrap (`PropertyService.Defined`), as for all results over runs; what the others do is undefined in the source.
- PropertyService.LastSetWins: the property itself must fit the file format and the others must be free of line ends and NULs and end within one line buffer, since a line cut elsewhere can be read as another property.
- Ext4Records.SuperblockRoundTrip: for a declared log block size of 32 and more C++ leaves the shift undefined; the model gives block size 0, with which nothing can be mounted.
- InitScript.ConcatenationExact: A is empty or ends with a line end; otherwise the concatenation joins its last line to the first of B.
- InitParser.InitParser.LoadFromVfs: assumes that the scripts it opens can be walked to their end (`Loadable`); the parser's log lines are left out.
- InitScript.PrintParse: a printable command is one trimmed line that is neither comment nor header, and printable words hold no blanks; others cannot be written in the language.
- LogcatBroker.PacketRoundTrip: the tag holds no zero byte, since it ends at the first.
- PropertyService.SystemPropertyGet: the platform getter and the two null checks are a parameter and a type.
- LogcatBroker.LogcatBroker.InjectTombstone: the report text, its file and the directory of tombstones are left out; the limit of the buffer is fixed and the counter unbounded.
- LogcatBroker.LogcatBroker.GetRecentLogs: returns the entries, not their formatted lines; time stamps and formatting are left out.
- AudioBridge.AudioBridge.WriteSamples: a shutdown between the running check and the lock is not modelled; the chime synthesiser and the backing file are left out.
- Volume name, symbolic links, inline data, block-mapped inodes, hashed directories, checksums and the journal: the reader does nothing with them.
- Sockets, processes, mmap, JNI, the Kotlin side, rendering, the stub bridges and the rest of the hook library: I/O plumbing, constants and field assignments that would add only easy members.
