/** Directories and paths: linear directory scan, path resolution and listing, and how they agree. */
module Ext4Paths {
  import opened Bytes
  import opened Text
  import opened SparseImage
  import opened Ext4Layout
  import opened Ext4Files
  import opened Ext4Contents

  const EXT4_ROOT_INO: nat := 2
  const SLASH: byte := 47
  const DOT: byte := 46
  const DIR_ENTRY_HEADER: nat := 8

  /** Stuck: the source would run forever or read outside a buffer. For the root of an extent tree the
      buffer is the 60 bytes of i_block: a root that announces five entries is Stuck, although the source
      would still be inside the 112-byte inode record when it reads the fifth. */
  datatype Outcome<+T> = Ok(value: T) | Fail | Stuck

  // ---------------------------------------------------------------------------
  // Files by inode
  // ---------------------------------------------------------------------------

  /** The extents found under a node; None when the walk has no finite unfolding. */
  ghost function ExtentsUnder(d: Disk, node: seq<byte>): Option<seq<Extent>> {
    if t :| Unfolds(d, node, t) then Some(InOrder(t)) else None
  }

  lemma ExtentsOfTree(d: Disk, node: seq<byte>, t: ExtentTree)
    requires Unfolds(d, node, t)
    ensures ExtentsUnder(d, node) == Some(InOrder(t))
  {
    var u :| Unfolds(d, node, u) && ExtentsUnder(d, node) == Some(InOrder(u));
    UnfoldsUnique(d, node, t, u);
  }

  /** The walk from an inode gets stuck exactly on a tree it would leave or never leave. */
  lemma StuckExactly(d: Disk, node: seq<byte>)
    ensures ExtentsUnder(d, node) == None <==> !WalkEnds(d, node, |d.blocks|)
  {
    if WalkEnds(d, node, |d.blocks|) {
      var t := EndingWalkUnfolds(d, node, |d.blocks|);
      ExtentsOfTree(d, node, t);
    } else {
      forall t ensures !Unfolds(d, node, t) {
        if Unfolds(d, node, t) {
          UnfoldingBoundsWalk(d, node, t, map[]);
        }
      }
    }
  }

  ghost function FileOf(g: Geometry, d: Disk, ino: nat): Outcome<seq<byte>>
    requires Mounted(g, d)
  {
    match Inode(g, d, ino)
    case None => Fail
    case Some(inode) =>
      match ExtentsUnder(d, InodeBlocks(inode))
      case None => Stuck
      case Some(es) =>
        match TakeBlocks(d, PhysBlocks(Ranges(es)), InodeSize(inode))
        case None => Fail
        case Some(out) => Ok(out)
  }

  /** Reading a file by inode goes wrong exactly on an inode whose extent tree leaves its nodes or runs
      deeper than the disk has blocks. */
  lemma FileStuckExactly(g: Geometry, d: Disk, ino: nat)
    requires Mounted(g, d)
    ensures FileOf(g, d, ino) == Stuck
       <==> Inode(g, d, ino).Some? && !WalkEnds(d, InodeBlocks(Inode(g, d, ino).value), |d.blocks|)
  {
    if Inode(g, d, ino).Some? {
      StuckExactly(d, InodeBlocks(Inode(g, d, ino).value));
    }
  }

  /** A file whose extent tree is written down hole-free and initialised, as far as its nodes can be
      read, on readable blocks, is read as exactly the file its extents define. */
  lemma WrittenFileIsRead(g: Geometry, d: Disk, ino: nat, l: Layout)
    requires Mounted(g, d) && g.blockSize > 0 && Inode(g, d, ino).Some?
    requires WrittenAt(d, InodeBlocks(Inode(g, d, ino).value), l)
    requires HoleFree(Reached(d, l), 0, Needed(InodeSize(Inode(g, d, ino).value), g.blockSize))
    requires NeededReadable(d, PhysBlocks(Ranges(Reached(d, l))), InodeSize(Inode(g, d, ino).value))
    ensures FileOf(g, d, ino) == Ok(Content(d, Reached(d, l), InodeSize(Inode(g, d, ino).value)))
    ensures OrderedFrom(AllExtents(l), 0) ==>
              FileOf(g, d, ino) == Ok(Content(d, AllExtents(l), InodeSize(Inode(g, d, ino).value)))
  {
    var inode := Inode(g, d, ino).value;
    WrittenExtents(g, d, ino, l);
    HoleFreeReads(d, Reached(d, l), InodeSize(inode));
    ReachedAreExtents(d, l);
    if OrderedFrom(AllExtents(l), 0) {
      hide FileOf, HoleFree, NeededReadable, OrderedFrom, Reached, AllExtents;
      PartIsWholeFile(Reached(d, l), AllExtents(l), g.blockSize, InodeSize(inode));
    }
  }

  /** A file whose extent tree is written down is copied from the blocks below its readable nodes: a
      node that cannot be read is passed over without a word. */
  lemma WrittenExtents(g: Geometry, d: Disk, ino: nat, l: Layout)
    requires Mounted(g, d) && Inode(g, d, ino).Some?
    requires WrittenAt(d, InodeBlocks(Inode(g, d, ino).value), l)
    ensures ExtentsUnder(d, InodeBlocks(Inode(g, d, ino).value)) == Some(Reached(d, l))
    ensures FileOf(g, d, ino)
         == match TakeBlocks(d, PhysBlocks(Ranges(Reached(d, l))), InodeSize(Inode(g, d, ino).value))
            case None => Fail
            case Some(out) => Ok(out)
  {
    WrittenTreeUnfolds(d, InodeBlocks(Inode(g, d, ino).value), l);
    ExtentsOfTree(d, InodeBlocks(Inode(g, d, ino).value), TreeOf(d, l));
  }

  /** Any file read in full or in part has min(size, bs * blocks) bytes, taken from its listed blocks
      in order; short extents still count as success. */
  lemma ReadFileBytes(g: Geometry, d: Disk, ino: nat, es: seq<Extent>)
    requires Mounted(g, d) && g.blockSize > 0 && Inode(g, d, ino).Some?
    requires ExtentsUnder(d, InodeBlocks(Inode(g, d, ino).value)) == Some(es)
    ensures var phys, size := PhysBlocks(Ranges(es)), InodeSize(Inode(g, d, ino).value);
            && (FileOf(g, d, ino).Ok? <==> NeededReadable(d, phys, size))
            && (FileOf(g, d, ino).Ok? ==>
                  var out := FileOf(g, d, ino).value;
                  |out| == Min(size, g.blockSize * |phys|)
                  && (|out| == size <==> size <= g.blockSize * |phys|)
                  && forall i :: 0 <= i < |out| ==> ByteOf(d, phys, i, out[i]))
  {
    var phys, size := PhysBlocks(Ranges(es)), InodeSize(Inode(g, d, ino).value);
    CopySucceeds(d, phys, size);
    if FileOf(g, d, ino).Ok? {
      CopiedBytes(d, phys, size, FileOf(g, d, ino).value);
    }
  }

  // ---------------------------------------------------------------------------
  // Directory scan
  // ---------------------------------------------------------------------------

  /** An entry; `fits` says its name lies inside the directory data. */
  datatype DirEntry = DirEntry(inode: nat, fileType: nat, nameLen: nat, name: seq<byte>, fits: bool)

  function EntryAt(data: seq<byte>, at: nat): DirEntry
    requires at + DIR_ENTRY_HEADER <= |data|
  {
    var n := data[at + 6];
    var fits := at + DIR_ENTRY_HEADER + n <= |data|;
    DirEntry(LE32(data, at), data[at + 7], n,
             if fits then data[at + DIR_ENTRY_HEADER..at + DIR_ENTRY_HEADER + n] else [], fits)
  }

  function DirEntries(data: seq<byte>, at: nat): seq<DirEntry>
    decreases |data| - at
  {
    if at + DIR_ENTRY_HEADER > |data| || LE16(data, at + 4) == 0 then []
    else [EntryAt(data, at)] + DirEntries(data, at + LE16(data, at + 4))
  }

  lemma DirEntriesCons(data: seq<byte>, at: nat)
    requires at + DIR_ENTRY_HEADER <= |data| && LE16(data, at + 4) != 0
    ensures DirEntries(data, at) == [EntryAt(data, at)] + DirEntries(data, at + LE16(data, at + 4))
  {
  }

  /** The scan of `findChildInode`: the first live entry with the name, 0 when there is none. */
  function Lookup(es: seq<DirEntry>, name: seq<byte>): Outcome<nat> {
    if es == [] then Ok(0)
    else if es[0].inode != 0 && es[0].nameLen == |name| && !es[0].fits then Stuck
    else if es[0].inode != 0 && es[0].nameLen == |name| && es[0].name == name then Ok(es[0].inode)
    else Lookup(es[1..], name)
  }

  ghost function FindChild(g: Geometry, d: Disk, dir: nat, name: seq<byte>): Outcome<nat>
    requires Mounted(g, d)
  {
    match FileOf(g, d, dir)
    case Fail => Ok(0)
    case Stuck => Stuck
    case Ok(data) => Lookup(DirEntries(data, 0), name)
  }

  // ---------------------------------------------------------------------------
  // Paths
  // ---------------------------------------------------------------------------

  function Significant(items: seq<seq<byte>>): seq<seq<byte>> {
    if items == [] then []
    else (if items[0] == [] || items[0] == [DOT] then [] else [items[0]]) + Significant(items[1..])
  }

  /** The components that count: empty ones and "." are skipped. */
  function Components(path: seq<byte>): seq<seq<byte>> {
    Significant(Split(path, SLASH))
  }

  ghost function Walk(g: Geometry, d: Disk, ino: nat, items: seq<seq<byte>>): Outcome<nat>
    requires Mounted(g, d)
    decreases |items|
  {
    if items == [] then Ok(ino)
    else match FindChild(g, d, ino, items[0])
      case Ok(child) => if child == 0 then Ok(0) else Walk(g, d, child, items[1..])
      case r => r
  }

  ghost function Resolve(g: Geometry, d: Disk, path: seq<byte>): Outcome<nat>
    requires Mounted(g, d)
  {
    Walk(g, d, EXT4_ROOT_INO, Components(path))
  }

  ghost function ReadPath(g: Geometry, d: Disk, path: seq<byte>): Outcome<seq<byte>>
    requires Mounted(g, d)
  {
    match Resolve(g, d, path)
    case Ok(ino) => if ino == 0 then Fail else FileOf(g, d, ino)
    case _ => Stuck
  }

  lemma {:induction false} SignificantAppend(a: seq<seq<byte>>, b: seq<seq<byte>>)
    ensures Significant(a + b) == Significant(a) + Significant(b)
  {
    if a == [] {
      assert a + b == b;
    } else {
      var head := if a[0] == [] || a[0] == [DOT] then [] else [a[0]];
      assert (a + b)[0] == a[0] && (a + b)[1..] == a[1..] + b;
      SignificantAppend(a[1..], b);
      Assoc(head, Significant(a[1..]), Significant(b));
    }
  }

  lemma ComponentsStep(rest: seq<byte>, k: nat)
    requires rest != [] && k == Find(rest, SLASH)
    ensures Components(rest)
         == (if rest[..k] == [] || rest[..k] == [DOT] then [] else [rest[..k]]) + Components(Behind(rest, k))
  {
    hide Significant, Split, Find;
    SplitEmpty(SLASH);
    SplitStep(rest, SLASH);
    SignificantCons(rest[..k], Split(Behind(rest, k), SLASH));
  }

  lemma SignificantCons(item: seq<byte>, items: seq<seq<byte>>)
    ensures Significant([item] + items) == (if item == [] || item == [DOT] then [] else [item]) + Significant(items)
  {
    assert ([item] + items)[1..] == items;
  }

  function Behind(rest: seq<byte>, k: nat): seq<byte>
    requires k <= |rest|
  {
    if k < |rest| then rest[k + 1..] else []
  }

  lemma {:induction false} TrailingSlash(path: seq<byte>)
    ensures Components(path + [SLASH]) == Components(path)
    decreases |path|
  {
    hide Components;
    var k, s := Find(path, SLASH), path + [SLASH];
    FindUnique(s, SLASH, k);
    ComponentsStep(s, k);
    assert s[..k] == path[..k];
    if path == [] {
      assert Behind(s, k) == [] && [] + Components([]) == Components([]);
    } else {
      ComponentsStep(path, k);
      if k < |path| {
        assert Behind(s, k) == Behind(path, k) + [SLASH];
        TrailingSlash(Behind(path, k));
      } else {
        assert Behind(s, k) == [];
      }
    }
  }

  /** A slash separates components and nothing else: trailing, doubled and "." parts vanish. */
  lemma ComponentsJoin(p: seq<byte>, q: seq<byte>)
    ensures Components(p + [SLASH] + q) == Components(p) + Components(q)
  {
    SplitAppend(p, SLASH, q);
    SignificantAppend(Split(p + [SLASH], SLASH), Split(q, SLASH));
    TrailingSlash(p);
  }

  /** Doubled slashes and "." between two parts count for nothing; ".." is a name like any other. */
  lemma DotsVanish(p: seq<byte>, q: seq<byte>)
    ensures Components(p + [47, 47] + q) == Components(p + [47, 46, 47] + q) == Components(p + [47] + q)
    ensures Components([46, 46]) == [[46, 46]]
  {
    OnlyDots();
    hide Components;
    assert p + [47, 47] + q == p + [SLASH] + [] + [SLASH] + q;
    assert p + [47, 46, 47] + q == p + [SLASH] + [DOT] + [SLASH] + q;
    ComponentsJoin(p, q);
    ComponentsJoin(p, []);
    ComponentsJoin(p, [DOT]);
    ComponentsJoin(p + [SLASH] + [], q);
    ComponentsJoin(p + [SLASH] + [DOT], q);
    assert Components(p) + [] == Components(p);
    PlainComponents([46, 46]);
  }

  lemma OnlyDots()
    ensures Components([]) == [] == Components([DOT])
  {
    FindUnique([DOT], SLASH, 1);
    assert [DOT][..1] == [DOT] && Split([DOT], SLASH) == [[DOT]] + [] == [[DOT]];
    assert [[DOT]][1..] == [] && Significant([]) == [];
  }

  predicate PlainName(name: seq<byte>) {
    name != [] && name != [DOT] && SLASH !in name
  }

  lemma PlainComponents(name: seq<byte>)
    requires PlainName(name)
    ensures Components(name) == [name]
  {
    FindUnique(name, SLASH, |name|);
    assert name[..|name|] == name;
    assert Split(name, SLASH) == [name] + [] == [name];
    assert [name][1..] == [] && Significant([]) == [];
    assert Significant([name]) == [name] + [];
  }

  /** Walking on from where an earlier walk ended. */
  ghost function Continue(g: Geometry, d: Disk, from: Outcome<nat>, items: seq<seq<byte>>): Outcome<nat>
    requires Mounted(g, d)
  {
    match from
    case Ok(ino) => if ino == 0 then Ok(0) else Walk(g, d, ino, items)
    case r => r
  }

  lemma {:induction false} WalkAppend(g: Geometry, d: Disk, ino: nat, a: seq<seq<byte>>, b: seq<seq<byte>>)
    requires Mounted(g, d) && ino != 0
    ensures Walk(g, d, ino, a + b) == Continue(g, d, Walk(g, d, ino, a), b)
    decreases |a|
  {
    if a == [] {
      assert a + b == b;
    } else {
      assert (a + b)[0] == a[0] && (a + b)[1..] == a[1..] + b;
      match FindChild(g, d, ino, a[0])
      case Ok(child) => if child != 0 { WalkAppend(g, d, child, a[1..], b); }
      case _ =>
    }
  }

  /** Resolving p/q is resolving q's components from the inode p resolves to, for all p and q. */
  lemma ResolveJoin(g: Geometry, d: Disk, p: seq<byte>, q: seq<byte>)
    requires Mounted(g, d)
    ensures Resolve(g, d, p + [SLASH] + q) == Continue(g, d, Resolve(g, d, p), Components(q))
  {
    ComponentsJoin(p, q);
    WalkAppend(g, d, EXT4_ROOT_INO, Components(p), Components(q));
  }

  /** Resolving p + "/" + name is looking name up in the directory p resolves to. */
  lemma ResolveChild(g: Geometry, d: Disk, p: seq<byte>, name: seq<byte>)
    requires Mounted(g, d) && PlainName(name)
    ensures Resolve(g, d, p + [SLASH] + name)
         == match Resolve(g, d, p)
            case Ok(ino) => if ino == 0 then Ok(0) else FindChild(g, d, ino, name)
            case r => r
  {
    ResolveJoin(g, d, p, name);
    PlainComponents(name);
    var r := Resolve(g, d, p);
    if r.Ok? && r.value != 0 && FindChild(g, d, r.value, name).Ok? {
      var child := FindChild(g, d, r.value, name).value;
      assert [name][1..] == [];
      assert Walk(g, d, child, []) == Ok(child);
    }
  }

  // ---------------------------------------------------------------------------
  // Listing
  // ---------------------------------------------------------------------------

  datatype FsFileEntry = FsFileEntry(
    name: seq<byte>, path: seq<byte>, inode: nat, size: nat, isDirectory: bool, isSymlink: bool)

  function ChildPath(path: seq<byte>, name: seq<byte>): seq<byte> {
    (if path == [SLASH] then [] else path) + [SLASH] + name
  }

  ghost function FileEntry(g: Geometry, d: Disk, path: seq<byte>, e: DirEntry): FsFileEntry
    requires Mounted(g, d)
  {
    var inode := Inode(g, d, e.inode);
    FsFileEntry(e.name, ChildPath(path, e.name), e.inode,
                if inode.Some? then InodeSize(inode.value) else 0, e.fileType == 2, e.fileType == 7)
  }

  predicate Hidden(name: seq<byte>) {
    name == [DOT] || name == [DOT, DOT]
  }

  /** The entries the scan of `listDirectory` collects, in directory order. */
  ghost function Collect(g: Geometry, d: Disk, path: seq<byte>, es: seq<DirEntry>): Outcome<seq<FsFileEntry>>
    requires Mounted(g, d)
  {
    if es == [] then Ok([])
    else if es[0].inode != 0 && !es[0].fits then Stuck
    else match Collect(g, d, path, es[1..])
      case Ok(rest) =>
        Ok((if es[0].inode == 0 || Hidden(es[0].name) then [] else [FileEntry(g, d, path, es[0])]) + rest)
      case r => r
  }

  lemma {:induction false} CollectNeverFails(g: Geometry, d: Disk, path: seq<byte>, es: seq<DirEntry>)
    requires Mounted(g, d)
    ensures Collect(g, d, path, es) != Fail
  {
    if es != [] {
      CollectNeverFails(g, d, path, es[1..]);
    }
  }

  /** What a listing collects before it is sorted. */
  ghost function Listing(g: Geometry, d: Disk, path: seq<byte>): Outcome<seq<FsFileEntry>>
    requires Mounted(g, d)
  {
    match Resolve(g, d, path)
    case Ok(ino) =>
      if ino == 0 then Fail
      else (match FileOf(g, d, ino)
            case Ok(data) => Collect(g, d, path, DirEntries(data, 0))
            case Fail => Fail
            case Stuck => Stuck)
    case _ => Stuck
  }

  /** Directories first, then by name. */
  predicate EntryLess(a: FsFileEntry, b: FsFileEntry) {
    if a.isDirectory != b.isDirectory then a.isDirectory else LexLess(a.name, b.name)
  }

  ghost predicate SortedEntries(xs: seq<FsFileEntry>) {
    forall i, j :: 0 <= i < j < |xs| ==> !EntryLess(xs[j], xs[i])
  }

  predicate SameKey(a: FsFileEntry, b: FsFileEntry) {
    a.isDirectory == b.isDirectory && a.name == b.name
  }

  lemma EntryOrder(a: FsFileEntry, b: FsFileEntry, c: FsFileEntry)
    ensures EntryLess(a, b) || EntryLess(b, a) || SameKey(a, b)
    ensures !(EntryLess(a, b) && EntryLess(b, a))
    ensures EntryLess(a, b) && EntryLess(b, c) ==> EntryLess(a, c)
    ensures !EntryLess(b, a) && !EntryLess(c, b) ==> !EntryLess(c, a)
  {
    LexTotal(a.name, b.name);
    LexTotal(b.name, c.name);
    LexTotal(a.name, c.name);
    if LexLess(a.name, b.name) && LexLess(b.name, c.name) { LexTransitive(a.name, b.name, c.name); }
    if LexLess(c.name, a.name) && LexLess(a.name, b.name) { LexTransitive(c.name, a.name, b.name); }
    if LexLess(b.name, c.name) && LexLess(c.name, a.name) { LexTransitive(b.name, c.name, a.name); }
  }

  /** Directories before everything else, and within a kind by name. */
  ghost predicate InListingOrder(a: FsFileEntry, b: FsFileEntry) {
    && (b.isDirectory ==> a.isDirectory)
    && (a.isDirectory == b.isDirectory ==> a.name == b.name || Precedes(a.name, b.name))
  }

  lemma SortedInOrder(xs: seq<FsFileEntry>)
    requires SortedEntries(xs)
    ensures forall i, j :: 0 <= i < j < |xs| ==> InListingOrder(xs[i], xs[j])
  {
    forall i, j | 0 <= i < j < |xs| ensures InListingOrder(xs[i], xs[j]) {
      assert !EntryLess(xs[j], xs[i]);
      LexTotal(xs[i].name, xs[j].name);
      LexIsPrecedes(xs[i].name, xs[j].name);
    }
  }

  /** With no two entries of the same kind and name, the comparator leaves std::sort no choice. */
  lemma {:induction false} SortingIsDetermined(a: seq<FsFileEntry>, b: seq<FsFileEntry>)
    requires SortedEntries(a) && SortedEntries(b) && multiset(a) == multiset(b)
    requires forall x, y :: x in a && y in a && SameKey(x, y) ==> x == y
    ensures a == b
    decreases |a|
  {
    assert |a| == |multiset(a)| == |multiset(b)| == |b|;
    if a != [] {
      SameHead(a, b);
      Tails(a, b);
      SortingIsDetermined(a[1..], b[1..]);
      assert a == [a[0]] + a[1..] && b == [b[0]] + b[1..];
    }
  }

  lemma SameHead(a: seq<FsFileEntry>, b: seq<FsFileEntry>)
    requires SortedEntries(a) && SortedEntries(b) && multiset(a) == multiset(b) && a != [] && b != []
    requires forall x, y :: x in a && y in a && SameKey(x, y) ==> x == y
    ensures a[0] == b[0]
  {
    assert b[0] in multiset(a) && a[0] in multiset(b);
    var i :| 0 <= i < |a| && a[i] == b[0];
    var j :| 0 <= j < |b| && b[j] == a[0];
    assert i > 0 ==> !EntryLess(a[i], a[0]);
    assert j > 0 ==> !EntryLess(b[j], b[0]);
    EntryOrder(a[0], b[0], b[0]);
  }

  lemma Tails<T>(a: seq<T>, b: seq<T>)
    requires multiset(a) == multiset(b) && a != [] && b != [] && a[0] == b[0]
    ensures multiset(a[1..]) == multiset(b[1..])
    ensures forall x :: x in a[1..] ==> x in a
  {
    assert a == [a[0]] + a[1..] && b == [b[0]] + b[1..];
    assert multiset(a[1..]) == multiset(a) - multiset{a[0]};
    assert multiset(b[1..]) == multiset(b) - multiset{b[0]};
  }

  predicate LiveNamed(e: DirEntry, name: seq<byte>) {
    e.inode != 0 && e.nameLen == |name| && e.name == name
  }

  lemma {:induction false} EntriesWellFormed(data: seq<byte>, at: nat)
    ensures forall e :: e in DirEntries(data, at) && e.fits ==> e.nameLen == |e.name|
    decreases |data| - at
  {
    if at + DIR_ENTRY_HEADER <= |data| && LE16(data, at + 4) != 0 {
      EntriesWellFormed(data, at + LE16(data, at + 4));
    }
  }

  /** A collected entry stems from a live, fitting, visible directory entry. */
  lemma {:induction false} CollectedFrom(g: Geometry, d: Disk, path: seq<byte>, es: seq<DirEntry>, x: FsFileEntry)
    returns (e: DirEntry)
    requires Mounted(g, d) && Collect(g, d, path, es).Ok? && x in Collect(g, d, path, es).value
    ensures e in es && e.inode != 0 && e.fits && !Hidden(e.name) && x == FileEntry(g, d, path, e)
  {
    var rest := Collect(g, d, path, es[1..]).value;
    if x in rest {
      e := CollectedFrom(g, d, path, es[1..], x);
    } else {
      e := es[0];
    }
  }

  /** When every live name fits, a lookup never gets stuck, and it finds the first live entry. */
  lemma {:induction false} LookupFindsFirst(g: Geometry, d: Disk, path: seq<byte>, es: seq<DirEntry>, name: seq<byte>)
    requires Mounted(g, d) && Collect(g, d, path, es).Ok?
    ensures Lookup(es, name).Ok?
    ensures Lookup(es, name).value == 0 ==> forall e :: e in es ==> !LiveNamed(e, name)
    ensures Lookup(es, name).value != 0 ==>
              exists i :: 0 <= i < |es| && LiveNamed(es[i], name) && es[i].inode == Lookup(es, name).value
                          && forall j :: 0 <= j < i ==> !LiveNamed(es[j], name)
  {
    if es != [] && !LiveNamed(es[0], name) {
      var rest := es[1..];
      LookupFindsFirst(g, d, path, rest, name);
      assert Lookup(es, name) == Lookup(rest, name);
      if Lookup(es, name).value != 0 {
        var i :| 0 <= i < |rest| && LiveNamed(rest[i], name) && rest[i].inode == Lookup(es, name).value
                 && forall j :: 0 <= j < i ==> !LiveNamed(rest[j], name);
        forall j | 0 <= j < i + 1 ensures !LiveNamed(es[j], name) {
          if j > 0 { assert es[j] == rest[j - 1]; }
        }
        assert LiveNamed(es[i + 1], name) && es[i + 1].inode == Lookup(es, name).value;
      } else {
        forall e | e in es ensures !LiveNamed(e, name) {
          if e != es[0] { assert e in rest; }
        }
      }
    }
  }

  /** No two live entries of a directory share a name. */
  ghost predicate UniqueNames(es: seq<DirEntry>) {
    forall e, f :: e in es && f in es && e.inode != 0 && f.inode != 0 && e.name == f.name && e.fits && f.fits
      ==> e.inode == f.inode
  }

  /** The path a listing prints for a plainly named entry resolves to the first live entry of that
      name; with unique names that is the listed inode itself. */
  lemma ListedPathResolves(g: Geometry, d: Disk, path: seq<byte>, x: FsFileEntry)
    requires Mounted(g, d) && Listing(g, d, path).Ok? && x in Listing(g, d, path).value
    requires PlainName(x.name)
    ensures Resolve(g, d, path).Ok? && FileOf(g, d, Resolve(g, d, path).value).Ok?
    ensures var es := DirEntries(FileOf(g, d, Resolve(g, d, path).value).value, 0);
            && Resolve(g, d, x.path) == Lookup(es, x.name)
            && (UniqueNames(es) ==> Resolve(g, d, x.path) == Ok(x.inode))
  {
    var ino := Resolve(g, d, path).value;
    var data := FileOf(g, d, ino).value;
    var es := DirEntries(data, 0);
    var e := CollectedFrom(g, d, path, es, x);
    RootPrefix(path, x.name);
    ResolveChild(g, d, if path == [SLASH] then [] else path, x.name);
    RootResolves(g, d);
    LookupFindsFirst(g, d, path, es, x.name);
    EntriesWellFormed(data, 0);
    assert LiveNamed(e, x.name);
    if UniqueNames(es) {
      var i :| 0 <= i < |es| && LiveNamed(es[i], x.name) && es[i].inode == Lookup(es, x.name).value;
      CollectedFit(g, d, path, es, es[i]);
    }
  }

  lemma {:induction false} CollectedFit(g: Geometry, d: Disk, path: seq<byte>, es: seq<DirEntry>, e: DirEntry)
    requires Mounted(g, d) && Collect(g, d, path, es).Ok? && e in es && e.inode != 0
    ensures e.fits
  {
    if e != es[0] {
      assert e in es[1..];
      CollectedFit(g, d, path, es[1..], e);
    }
  }

  lemma RootPrefix(path: seq<byte>, name: seq<byte>)
    ensures ChildPath(path, name) == (if path == [SLASH] then [] else path) + [SLASH] + name
  {
  }

  /** "" and "/" both name the root. */
  lemma RootResolves(g: Geometry, d: Disk)
    requires Mounted(g, d)
    ensures Resolve(g, d, []) == Ok(EXT4_ROOT_INO) == Resolve(g, d, [SLASH])
  {
    TrailingSlash([]);
    assert [] + [SLASH] == [SLASH];
  }

  /** A path that leads nowhere, or to a directory that cannot be read, is neither read nor listed, and
      nothing is found below it. */
  lemma LeadsNowhere(g: Geometry, d: Disk, p: seq<byte>, name: seq<byte>)
    requires Mounted(g, d) && Resolve(g, d, p).Ok? && PlainName(name)
    ensures Resolve(g, d, p) == Ok(0) || FileOf(g, d, Resolve(g, d, p).value) == Fail ==>
              && ReadPath(g, d, p) == Fail && Listing(g, d, p) == Fail
              && Resolve(g, d, p + [SLASH] + name) == Ok(0)
    ensures Listing(g, d, p) == Fail ==> ReadPath(g, d, p) == Fail
  {
    ResolveChild(g, d, p, name);
    hide Mounted, FileOf, Resolve, PlainName;
    var ino := Resolve(g, d, p).value;
    if ino != 0 && FileOf(g, d, ino).Ok? {
      CollectNeverFails(g, d, p, DirEntries(FileOf(g, d, ino).value, 0));
    }
  }
}
