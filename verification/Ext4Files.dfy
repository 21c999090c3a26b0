/** Extent trees and file contents: the walk of `readExtentTree`, the block copy of
    `readFileDataByInode`, and the file the ext4 format defines. */
module Ext4Files {
  import opened Bytes
  import opened SparseImage
  import opened Ext4Layout

  const EXT4_EXTENTS_MAGIC: nat := 0xF30A
  const NODE_HEADER: nat := 12
  const NODE_ENTRY: nat := 12
  const INIT_MAX_LEN: nat := 32768

  datatype Extent = Extent(logical: nat, len: nat, initialized: bool, start: nat)

  // ---------------------------------------------------------------------------
  // Nodes
  // ---------------------------------------------------------------------------

  predicate HasMagic(node: seq<byte>)
    requires |node| >= NODE_HEADER
  {
    LE16(node, 0) == EXT4_EXTENTS_MAGIC
  }

  function EntryCount(node: seq<byte>): nat
    requires |node| >= NODE_HEADER
  {
    LE16(node, 2)
  }

  function Depth(node: seq<byte>): nat
    requires |node| >= NODE_HEADER
  {
    LE16(node, 6)
  }

  /** Offset of entry i behind the node header. */
  function EntryPos(i: nat): nat {
    12 + 12 * i
  }

  /** The entries the header announces lie inside the node. */
  predicate EntriesFit(node: seq<byte>) {
    |node| >= NODE_HEADER && EntryPos(EntryCount(node)) <= |node|
  }

  function ExtentAt(node: seq<byte>, i: nat): Extent
    requires EntriesFit(node) && i < EntryCount(node)
  {
    var at := EntryPos(i);
    var len := LE16(node, at + 4);
    Extent(LE32(node, at), if len > INIT_MAX_LEN then len - INIT_MAX_LEN else len, len <= INIT_MAX_LEN,
           TWO_32 * LE16(node, at + 6) + LE32(node, at + 8))
  }

  function ChildAt(node: seq<byte>, i: nat): nat
    requires EntriesFit(node) && i < EntryCount(node)
  {
    var at := EntryPos(i);
    TWO_32 * LE16(node, at + 8) + LE32(node, at + 4)
  }

  function LeafExtents(node: seq<byte>): seq<Extent>
    requires EntriesFit(node)
  {
    seq(EntryCount(node), i requires 0 <= i < EntryCount(node) => ExtentAt(node, i))
  }

  // ---------------------------------------------------------------------------
  // Trees
  // ---------------------------------------------------------------------------

  /** What a node unfolds to: a child whose block cannot be read and a node without the magic
      number both contribute nothing. */
  datatype ExtentTree =
    | Unread
    | NoMagic
    | Leaf(extents: seq<Extent>)
    | Index(kids: seq<ExtentTree>)

  /** `t` is the finite unfolding of the on-disk tree under `node`. */
  ghost predicate Unfolds(d: Disk, node: seq<byte>, t: ExtentTree)
    decreases t, 0
  {
    |node| >= NODE_HEADER &&
    if !HasMagic(node) then t == NoMagic
    else EntriesFit(node) &&
         if Depth(node) == 0 then t == Leaf(LeafExtents(node))
         else t.Index? && |t.kids| == EntryCount(node)
              && forall i :: 0 <= i < |t.kids| ==> KidUnfolds(d, ChildAt(node, i), t.kids[i])
  }

  ghost predicate KidUnfolds(d: Disk, block: nat, t: ExtentTree)
    decreases t, 1
  {
    match d.Read(block)
    case None => t == Unread
    case Some(b) => Unfolds(d, b, t)
  }

  function InOrder(t: ExtentTree): seq<Extent>
    decreases t
  {
    match t
    case Leaf(es) => es
    case Index(kids) => InOrderAll(kids)
    case _ => []
  }

  function InOrderAll(kids: seq<ExtentTree>): seq<Extent>
    decreases kids
  {
    if kids == [] then [] else InOrder(kids[0]) + InOrderAll(kids[1..])
  }

  lemma {:induction false} InOrderAppend(a: seq<ExtentTree>, b: seq<ExtentTree>)
    ensures InOrderAll(a + b) == InOrderAll(a) + InOrderAll(b)
  {
    if a == [] {
      assert a + b == b;
    } else {
      assert (a + b)[0] == a[0] && (a + b)[1..] == a[1..] + b;
      InOrderAppend(a[1..], b);
    }
  }

  /** A node has at most one unfolding. */
  lemma {:induction false} UnfoldsUnique(d: Disk, node: seq<byte>, t: ExtentTree, u: ExtentTree)
    requires Unfolds(d, node, t) && Unfolds(d, node, u)
    ensures t == u
    decreases t
  {
    if t.Index? {
      forall i | 0 <= i < |t.kids| ensures t.kids[i] == u.kids[i] {
        assert KidUnfolds(d, ChildAt(node, i), t.kids[i]) && KidUnfolds(d, ChildAt(node, i), u.kids[i]);
        var b := d.Read(ChildAt(node, i));
        if b.Some? {
          UnfoldsUnique(d, b.value, t.kids[i], u.kids[i]);
        }
      }
      assert t.kids == u.kids;
    }
  }

  /** Every child block that carries the magic has a strictly smaller eh_depth, all the way down. */
  ghost predicate DepthsDecrease(d: Disk, node: seq<byte>)
    requires d.Valid() && d.blockSize >= NODE_HEADER && |node| >= NODE_HEADER
    decreases Depth(node)
  {
    HasMagic(node) ==>
      EntriesFit(node)
      && (Depth(node) > 0 ==>
            forall i {:trigger ChildAt(node, i)} :: 0 <= i < EntryCount(node) ==>
              var b := d.Read(ChildAt(node, i));
              b.Some? ==> (HasMagic(b.value) ==> Depth(b.value) < Depth(node))
                          && (Depth(b.value) < Depth(node) ==> DepthsDecrease(d, b.value)))
  }

  /** The walk under `node` stays inside its nodes and goes at most n readable blocks deep. */
  ghost predicate WalkEnds(d: Disk, node: seq<byte>, n: nat)
    decreases n
  {
    |node| >= NODE_HEADER &&
    (HasMagic(node) ==>
       EntriesFit(node)
       && (Depth(node) > 0 ==>
             forall i {:trigger ChildAt(node, i)} :: 0 <= i < EntryCount(node) ==>
               var b := d.Read(ChildAt(node, i));
               b.Some? ==> n > 0 && WalkEnds(d, b.value, n - 1)))
  }

  /** A walk that ends has a finite unfolding. */
  lemma {:induction false} EndingWalkUnfolds(d: Disk, node: seq<byte>, n: nat) returns (t: ExtentTree)
    requires WalkEnds(d, node, n)
    ensures Unfolds(d, node, t)
    decreases n
  {
    if !HasMagic(node) {
      t := NoMagic;
    } else if Depth(node) == 0 {
      t := Leaf(LeafExtents(node));
    } else {
      var kids: seq<ExtentTree> := [];
      while |kids| < EntryCount(node)
        invariant |kids| <= EntryCount(node)
        invariant forall i :: 0 <= i < |kids| ==> KidUnfolds(d, ChildAt(node, i), kids[i])
        decreases EntryCount(node) - |kids|
      {
        var b := d.Read(ChildAt(node, |kids|));
        var kid := Unread;
        if b.Some? {
          kid := EndingWalkUnfolds(d, b.value, n - 1);
        }
        assert KidUnfolds(d, ChildAt(node, |kids|), kid);
        kids := kids + [kid];
      }
      t := Index(kids);
    }
  }

  /** The blocks on the way down to a tree, each with the tree that unfolds from it: none is below it. */
  ghost predicate OnTheWay(d: Disk, path: map<nat, ExtentTree>, t: ExtentTree) {
    forall p :: p in path ==>
      p < |d.blocks| && d.Read(p).Some? && Unfolds(d, d.Read(p).value, path[p]) && (t == path[p] || t < path[p])
  }

  lemma {:induction false} NumbersBelow(s: set<nat>, n: nat)
    requires forall k :: k in s ==> k < n
    ensures |s| <= n
  {
    if n > 0 {
      NumbersBelow(s - {n - 1}, n - 1);
      assert s <= s - {n - 1} + {n - 1};
    } else {
      assert s == {};
    }
  }

  /** A block is never met again below itself, so a finite walk is at most as deep as the disk is long. */
  lemma {:induction false} UnfoldingBoundsWalk(d: Disk, node: seq<byte>, t: ExtentTree, path: map<nat, ExtentTree>)
    requires Unfolds(d, node, t) && OnTheWay(d, path, t) && |path.Keys| <= |d.blocks|
    ensures WalkEnds(d, node, |d.blocks| - |path.Keys|)
    decreases t
  {
    if HasMagic(node) && Depth(node) > 0 {
      forall i | 0 <= i < EntryCount(node) && d.Read(ChildAt(node, i)).Some?
        ensures |path.Keys| < |d.blocks|
        ensures WalkEnds(d, d.Read(ChildAt(node, i)).value, |d.blocks| - |path.Keys| - 1)
      {
        var p, kid := ChildAt(node, i), t.kids[i];
        assert KidUnfolds(d, p, kid);
        hide Unfolds, OnTheWay;
        KidOnTheWay(d, path, t, p, kid);
        UnfoldingBoundsWalk(d, d.Read(p).value, kid, path[p := kid]);
      }
    }
  }

  lemma NotMetAgain(d: Disk, path: map<nat, ExtentTree>, t: ExtentTree, p: nat, kid: ExtentTree)
    requires OnTheWay(d, path, t) && kid < t
    requires d.Read(p).Some? && Unfolds(d, d.Read(p).value, kid)
    ensures p !in path
  {
    hide Unfolds;
    if p in path {
      UnfoldsUnique(d, d.Read(p).value, kid, path[p]);
      assert false;
    }
  }

  lemma KidOnTheWay(d: Disk, path: map<nat, ExtentTree>, t: ExtentTree, p: nat, kid: ExtentTree)
    requires OnTheWay(d, path, t) && kid < t
    requires d.Read(p).Some? && Unfolds(d, d.Read(p).value, kid)
    ensures OnTheWay(d, path[p := kid], kid)
    ensures |path[p := kid].Keys| == |path.Keys| + 1 <= |d.blocks|
  {
    NotMetAgain(d, path, t, p, kid);
    hide Unfolds;
    var longer := path[p := kid];
    forall q | q in longer
      ensures q < |d.blocks| && d.Read(q).Some? && Unfolds(d, d.Read(q).value, longer[q])
      ensures kid == longer[q] || kid < longer[q]
    {
      assert q != p ==> q in path && longer[q] == path[q];
    }
    OneMore(path, p, kid, |d.blocks|);
  }

  lemma OneMore(path: map<nat, ExtentTree>, p: nat, kid: ExtentTree, n: nat)
    requires p !in path && p < n && forall q :: q in path ==> q < n
    ensures |path[p := kid].Keys| == |path.Keys| + 1 <= n
  {
    assert path[p := kid].Keys == path.Keys + {p};
    NumbersBelow(path[p := kid].Keys, n);
  }

  /** The walk ends exactly when no path of readable blocks is longer than the disk has blocks: a
      condition that can be checked before the walk. */
  lemma WalkEndsExactly(d: Disk, node: seq<byte>)
    ensures (exists t :: Unfolds(d, node, t)) <==> WalkEnds(d, node, |d.blocks|)
    ensures (exists n: nat :: WalkEnds(d, node, n)) <==> WalkEnds(d, node, |d.blocks|)
  {
    if n: nat :| WalkEnds(d, node, n) {
      var t := EndingWalkUnfolds(d, node, n);
      assert exists u :: Unfolds(d, node, u);
    }
    if t :| Unfolds(d, node, t) {
      UnfoldingBoundsWalk(d, node, t, map[]);
    }
  }

  /** Strictly decreasing depths are enough: the walk goes at most eh_depth blocks deep. */
  lemma {:induction false} DecreasingDepthsEnd(d: Disk, node: seq<byte>, n: nat)
    requires d.Valid() && d.blockSize >= NODE_HEADER && |node| >= NODE_HEADER && DepthsDecrease(d, node)
    requires HasMagic(node) ==> Depth(node) <= n
    ensures WalkEnds(d, node, n)
    decreases n
  {
    if HasMagic(node) && Depth(node) > 0 {
      forall i | 0 <= i < EntryCount(node) && d.Read(ChildAt(node, i)).Some?
        ensures WalkEnds(d, d.Read(ChildAt(node, i)).value, n - 1)
      {
        var b := d.Read(ChildAt(node, i)).value;
        if HasMagic(b) {
          DecreasingDepthsEnd(d, b, n - 1);
        }
      }
    }
  }

  lemma DecreasingDepthsUnfold(d: Disk, node: seq<byte>) returns (t: ExtentTree)
    requires d.Valid() && d.blockSize >= NODE_HEADER && |node| >= NODE_HEADER && DepthsDecrease(d, node)
    ensures Unfolds(d, node, t)
  {
    DecreasingDepthsEnd(d, node, Depth(node));
    t := EndingWalkUnfolds(d, node, Depth(node));
  }

  /** An index node one of whose readable children is `child`. */
  ghost predicate Links(d: Disk, node: seq<byte>, child: seq<byte>) {
    && EntriesFit(node) && HasMagic(node) && Depth(node) > 0
    && exists i :: 0 <= i < EntryCount(node) && d.Read(ChildAt(node, i)) == Some(child)
  }

  /** Following links goes down strictly inside the unfolding. */
  lemma {:induction false} LinksGoDown(d: Disk, nodes: seq<seq<byte>>, t: ExtentTree) returns (u: ExtentTree)
    requires |nodes| > 1 && forall k :: 0 <= k < |nodes| - 1 ==> Links(d, nodes[k], nodes[k + 1])
    requires Unfolds(d, nodes[0], t)
    ensures Unfolds(d, nodes[|nodes| - 1], u) && u < t
    decreases |nodes|
  {
    assert Links(d, nodes[0], nodes[1]);
    var i :| 0 <= i < EntryCount(nodes[0]) && d.Read(ChildAt(nodes[0], i)) == Some(nodes[1]);
    assert KidUnfolds(d, ChildAt(nodes[0], i), t.kids[i]);
    u := t.kids[i];
    if |nodes| > 2 {
      var rest := nodes[1..];
      forall k | 0 <= k < |rest| - 1 ensures Links(d, rest[k], rest[k + 1]) {
        assert Links(d, nodes[k + 1], nodes[k + 2]);
      }
      u := LinksGoDown(d, rest, t.kids[i]);
    }
  }

  /** A cycle of index nodes, of any length, has no finite unfolding: nothing in the walk stops it. */
  lemma CycleNeverEnds(d: Disk, nodes: seq<seq<byte>>)
    requires |nodes| > 1 && forall k :: 0 <= k < |nodes| - 1 ==> Links(d, nodes[k], nodes[k + 1])
    requires nodes[0] == nodes[|nodes| - 1]
    ensures forall n: nat :: !WalkEnds(d, nodes[0], n)
  {
    forall n: nat ensures !WalkEnds(d, nodes[0], n) {
      if WalkEnds(d, nodes[0], n) {
        var t := EndingWalkUnfolds(d, nodes[0], n);
        var u := LinksGoDown(d, nodes, t);
        UnfoldsUnique(d, nodes[0], t, u);
        assert false;
      }
    }
  }

  /** In particular an index node that lists its own block. */
  lemma SelfReferenceNeverUnfolds(d: Disk, node: seq<byte>, i: nat, t: ExtentTree)
    requires EntriesFit(node) && HasMagic(node) && Depth(node) > 0 && i < EntryCount(node)
    requires d.Read(ChildAt(node, i)) == Some(node)
    ensures !Unfolds(d, node, t)
  {
    assert Links(d, node, node);
    CycleNeverEnds(d, [node, node]);
    WalkEndsExactly(d, node);
  }

  // ---------------------------------------------------------------------------
  // Writing a tree down
  // ---------------------------------------------------------------------------

  predicate EncodableExtent(e: Extent) {
    && e.logical < TWO_32 && e.start < TWO_16 * TWO_32
    && (if e.initialized then e.len <= INIT_MAX_LEN else 0 < e.len < INIT_MAX_LEN)
  }

  function EncodeExtent(e: Extent): (r: seq<byte>)
    requires EncodableExtent(e)
    ensures |r| == NODE_ENTRY
  {
    Put32(e.logical) + Put16(if e.initialized then e.len else e.len + INIT_MAX_LEN)
    + Put16(e.start / TWO_32) + Put32(e.start % TWO_32)
  }

  function EncodeIdx(logical: nat, block: nat): (r: seq<byte>)
    requires logical < TWO_32 && block < TWO_16 * TWO_32
    ensures |r| == NODE_ENTRY
  {
    Put32(logical) + Put32(block % TWO_32) + Put16(block / TWO_32) + Put16(0)
  }

  function NodeHeader(count: nat, depth: nat): (r: seq<byte>)
    requires count < TWO_16 && depth < TWO_16
    ensures |r| == NODE_HEADER
  {
    Put16(EXT4_EXTENTS_MAGIC) + Put16(count) + Put16(count) + Put16(depth) + Put32(0)
  }

  /** `node` starts with the given header and entries. */
  predicate NodeHolds(node: seq<byte>, depth: nat, entries: seq<seq<byte>>)
    requires |entries| < TWO_16 && depth < TWO_16
  {
    && EntryPos(|entries|) <= |node|
    && node[..NODE_HEADER] == NodeHeader(|entries|, depth)
    && forall i :: 0 <= i < |entries| ==>
         node[EntryPos(i)..EntryPos(i) + NODE_ENTRY] == entries[i]
  }

  /** A tree as a writer lays it out: leaves with their extents, index nodes with children placed at
      blocks. */
  datatype Layout =
    | Extents(extents: seq<Extent>)
    | Nodes(depth: nat, placed: seq<Placed>)
  datatype Placed = Placed(logical: nat, block: nat, sub: Layout)

  ghost predicate WrittenAt(d: Disk, node: seq<byte>, l: Layout)
    decreases l
  {
    match l
    case Extents(es) =>
      && |es| < TWO_16 && (forall i :: 0 <= i < |es| ==> EncodableExtent(es[i]))
      && NodeHolds(node, 0, seq(|es|, i requires 0 <= i < |es| => EncodeExtent(es[i])))
    case Nodes(depth, ps) =>
      && |ps| < TWO_16 && (forall i :: 0 <= i < |ps| ==> ps[i].logical < TWO_32 && ps[i].block < TWO_16 * TWO_32)
      && 0 < depth < TWO_16
      && NodeHolds(node, depth, seq(|ps|, i requires 0 <= i < |ps| => EncodeIdx(ps[i].logical, ps[i].block)))
      && forall i :: 0 <= i < |ps| && d.Read(ps[i].block).Some? ==>
           WrittenAt(d, d.Read(ps[i].block).value, ps[i].sub)
  }

  /** What the walk finds of a layout on a disk that may have lost some of its blocks. */
  function TreeOf(d: Disk, l: Layout): ExtentTree
    decreases l
  {
    match l
    case Extents(es) => Leaf(es)
    case Nodes(_, ps) =>
      Index(seq(|ps|, i requires 0 <= i < |ps| =>
        if d.Read(ps[i].block).Some? then TreeOf(d, ps[i].sub) else Unread))
  }

  /** The extents the walk reaches, and all the extents of the file. */
  function Reached(d: Disk, l: Layout): seq<Extent> {
    InOrder(TreeOf(d, l))
  }

  function AllExtents(l: Layout): seq<Extent>
    decreases l
  {
    match l
    case Extents(es) => es
    case Nodes(_, ps) => AllPlaced(ps)
  }

  function AllPlaced(ps: seq<Placed>): seq<Extent>
    decreases ps
  {
    if ps == [] then [] else PlacedExtents(ps[0]) + AllPlaced(ps[1..])
  }

  function PlacedExtents(p: Placed): seq<Extent>
    decreases p
  {
    AllExtents(p.sub)
  }

  /** The walk reaches no extent that is not the file's, and all of them if no block is lost. */
  lemma {:induction false} ReachedAreExtents(d: Disk, l: Layout)
    ensures forall e :: e in Reached(d, l) ==> e in AllExtents(l)
    ensures Intact(d, l) ==> Reached(d, l) == AllExtents(l)
    decreases l
  {
    if l.Nodes? {
      PlacedAreExtents(d, l.placed);
    }
  }

  lemma {:induction false} PlacedAreExtents(d: Disk, ps: seq<Placed>)
    ensures forall e :: e in InOrder(TreeOf(d, Nodes(1, ps))) ==> e in AllPlaced(ps)
    ensures Intact(d, Nodes(1, ps)) ==> InOrder(TreeOf(d, Nodes(1, ps))) == AllPlaced(ps)
    decreases ps
  {
    if ps != [] {
      var t, rest := TreeOf(d, Nodes(1, ps)), TreeOf(d, Nodes(1, ps[1..]));
      OnePlaced(d, ps[0]);
      PlacedAreExtents(d, ps[1..]);
      assert t.kids[1..] == rest.kids;
      assert InOrder(t) == InOrder(t.kids[0]) + InOrder(rest);
    }
  }

  lemma {:induction false} OnePlaced(d: Disk, p: Placed)
    ensures forall e :: e in Reached(d, p.sub) ==> e in PlacedExtents(p)
    ensures Intact(d, p.sub) ==> Reached(d, p.sub) == PlacedExtents(p)
    decreases p
  {
    ReachedAreExtents(d, p.sub);
  }

  /** Every node of the layout can be read. */
  predicate Intact(d: Disk, l: Layout)
    decreases l
  {
    match l
    case Extents(_) => true
    case Nodes(_, ps) => forall i :: 0 <= i < |ps| ==> d.Read(ps[i].block).Some? && Intact(d, ps[i].sub)
  }

  lemma HeaderFields(node: seq<byte>, count: nat, depth: nat)
    requires count < TWO_16 && depth < TWO_16 && |node| >= NODE_HEADER
    requires node[..NODE_HEADER] == NodeHeader(count, depth)
    ensures HasMagic(node) && EntryCount(node) == count && Depth(node) == depth
  {
    var h := NodeHeader(count, depth);
    assert node[0..2] == node[..NODE_HEADER][0..2] == Put16(EXT4_EXTENTS_MAGIC);
    assert node[2..4] == node[..NODE_HEADER][2..4] == Put16(count);
    assert node[6..8] == node[..NODE_HEADER][6..8] == Put16(depth);
    Field16(node, 0, EXT4_EXTENTS_MAGIC);
    Field16(node, 2, count);
    Field16(node, 6, depth);
  }

  lemma ExtentParts(e: Extent)
    requires EncodableExtent(e)
    ensures var x := EncodeExtent(e);
            && x[0..4] == Put32(e.logical) && x[4..6] == Put16(if e.initialized then e.len else e.len + INIT_MAX_LEN)
            && x[6..8] == Put16(e.start / TWO_32) && x[8..12] == Put32(e.start % TWO_32)
  {
    hide Put16, Put32;
  }

  lemma IdxParts(logical: nat, block: nat)
    requires logical < TWO_32 && block < TWO_16 * TWO_32
    ensures var x := EncodeIdx(logical, block);
            x[4..8] == Put32(block % TWO_32) && x[8..10] == Put16(block / TWO_32)
  {
    hide Put16, Put32;
  }

  lemma ExtentField(node: seq<byte>, i: nat, e: Extent)
    requires EntriesFit(node) && i < EntryCount(node) && EncodableExtent(e)
    requires var at := EntryPos(i); node[at..at + NODE_ENTRY] == EncodeExtent(e)
    ensures ExtentAt(node, i) == e
  {
    var at := EntryPos(i);
    ExtentParts(e);
    hide EncodeExtent, Put16, Put32, LE16, LE32;
    SubSlice(node, at, NODE_ENTRY, 0, 4);
    SubSlice(node, at, NODE_ENTRY, 4, 6);
    SubSlice(node, at, NODE_ENTRY, 6, 8);
    SubSlice(node, at, NODE_ENTRY, 8, 12);
    Field32(node, at, e.logical);
    Field16(node, at + 4, if e.initialized then e.len else e.len + INIT_MAX_LEN);
    Field16(node, at + 6, e.start / TWO_32);
    Field32(node, at + 8, e.start % TWO_32);
  }

  lemma IdxField(node: seq<byte>, i: nat, logical: nat, block: nat)
    requires EntriesFit(node) && i < EntryCount(node) && logical < TWO_32 && block < TWO_16 * TWO_32
    requires var at := EntryPos(i); node[at..at + NODE_ENTRY] == EncodeIdx(logical, block)
    ensures ChildAt(node, i) == block
  {
    var at := EntryPos(i);
    IdxParts(logical, block);
    hide EncodeIdx, Put16, Put32, LE16, LE32;
    SubSlice(node, at, NODE_ENTRY, 4, 8);
    SubSlice(node, at, NODE_ENTRY, 8, 10);
    Field32(node, at + 4, block % TWO_32);
    Field16(node, at + 8, block / TWO_32);
  }

  /** A tree written in the ext4 format unfolds to exactly itself, but for lost nodes: order, block
      numbers, both length codings and the initialised flag all come back. */
  lemma {:induction false} WrittenTreeUnfolds(d: Disk, node: seq<byte>, l: Layout)
    requires WrittenAt(d, node, l)
    ensures Unfolds(d, node, TreeOf(d, l))
    decreases l
  {
    match l
    case Extents(es) =>
      var entries := seq(|es|, i requires 0 <= i < |es| => EncodeExtent(es[i]));
      HeaderFields(node, |es|, 0);
      forall i | 0 <= i < |es| ensures LeafExtents(node)[i] == es[i] {
        assert entries[i] == EncodeExtent(es[i]);
        ExtentField(node, i, es[i]);
      }
      assert LeafExtents(node) == es;
    case Nodes(depth, ps) =>
      var entries := seq(|ps|, i requires 0 <= i < |ps| => EncodeIdx(ps[i].logical, ps[i].block));
      HeaderFields(node, |ps|, depth);
      var t := TreeOf(d, l);
      forall i | 0 <= i < |ps| ensures KidUnfolds(d, ChildAt(node, i), t.kids[i]) {
        assert entries[i] == EncodeIdx(ps[i].logical, ps[i].block);
        IdxField(node, i, ps[i].logical, ps[i].block);
        if d.Read(ps[i].block).Some? {
          WrittenTreeUnfolds(d, d.Read(ps[i].block).value, ps[i].sub);
        }
      }
  }

  // ---------------------------------------------------------------------------
  // File contents
  // ---------------------------------------------------------------------------

  function Ranges(es: seq<Extent>): seq<(nat, nat)> {
    seq(|es|, i requires 0 <= i < |es| => (es[i].start, es[i].len))
  }

  /** The physical blocks of a range list, one by one. */
  function PhysBlocks(ranges: seq<(nat, nat)>): seq<nat> {
    if ranges == [] then []
    else seq(ranges[0].1, k requires 0 <= k => ranges[0].0 + k) + PhysBlocks(ranges[1..])
  }

  /** Copies blocks until `size` bytes are there or the list ends; None when a block fails. */
  function TakeBlocks(d: Disk, phys: seq<nat>, size: nat): Option<seq<byte>>
    requires d.Valid()
    decreases |phys|
  {
    if size == 0 || phys == [] then Some([])
    else match d.Read(phys[0])
      case None => None
      case Some(b) =>
        var n := Min(size, d.blockSize);
        match TakeBlocks(d, phys[1..], size - n)
        case None => None
        case Some(rest) => Some(b[..n] + rest)
  }

  /** Blocks needed for `size` bytes. */
  function Needed(size: nat, bs: nat): (r: nat)
    requires bs > 0
  {
    if size == 0 then 0 else 1 + Needed(size - Min(size, bs), bs)
  }

  lemma {:induction false} NeededIsCeiling(size: nat, bs: nat)
    requires bs > 0
    ensures Needed(size, bs) == (size + bs - 1) / bs
  {
    if size == 0 {
      DivMod(bs - 1, bs, 0, bs - 1);
    } else if size <= bs {
      DivMod(size + bs - 1, bs, 1, size - 1);
    } else {
      NeededIsCeiling(size - bs, bs);
      DivShift(size + bs - 1, bs);
    }
  }

  lemma DivShift(i: nat, bs: nat)
    requires 0 < bs <= i
    ensures i / bs == (i - bs) / bs + 1 && i % bs == (i - bs) % bs
  {
    DivMod(i, bs, (i - bs) / bs + 1, (i - bs) % bs);
  }

  /** The blocks that are actually asked for can all be read. */
  predicate NeededReadable(d: Disk, phys: seq<nat>, size: nat)
    requires d.blockSize > 0
  {
    forall i :: 0 <= i < |phys| && i < Needed(size, d.blockSize) ==> d.Read(phys[i]).Some?
  }

  /** The copy fails exactly when a needed block is unreadable. */
  lemma {:induction false} CopySucceeds(d: Disk, phys: seq<nat>, size: nat)
    requires d.Valid() && d.blockSize > 0
    ensures TakeBlocks(d, phys, size).Some? <==> NeededReadable(d, phys, size)
    decreases |phys|
  {
    if size > 0 && phys != [] {
      var rest, left := phys[1..], size - Min(size, d.blockSize);
      CopySucceeds(d, rest, left);
      if d.Read(phys[0]).Some? && NeededReadable(d, rest, left) {
        forall i | 0 <= i < |phys| && i < Needed(size, d.blockSize) ensures d.Read(phys[i]).Some? {
          if i > 0 { assert phys[i] == rest[i - 1]; }
        }
      }
      if NeededReadable(d, phys, size) {
        assert d.Read(phys[0]).Some?;
        forall i | 0 <= i < |rest| && i < Needed(left, d.blockSize) ensures d.Read(rest[i]).Some? {
          assert rest[i] == phys[i + 1];
        }
      }
    }
  }

  predicate ByteOf(d: Disk, phys: seq<nat>, i: nat, x: byte)
    requires d.Valid() && d.blockSize > 0
  {
    i / d.blockSize < |phys| && d.Read(phys[i / d.blockSize]).Some?
    && x == d.Read(phys[i / d.blockSize]).value[i % d.blockSize]
  }

  /** What is copied is as long as the smaller of the file size and the blocks' total, and byte i is
      byte i mod bs of the (i / bs)-th block. */
  lemma {:induction false} CopiedBytes(d: Disk, phys: seq<nat>, size: nat, out: seq<byte>)
    requires d.Valid() && d.blockSize > 0 && TakeBlocks(d, phys, size) == Some(out)
    ensures |out| == Min(size, d.blockSize * |phys|)
    ensures forall i :: 0 <= i < |out| ==> ByteOf(d, phys, i, out[i])
    decreases |phys|
  {
    var bs := d.blockSize;
    if size > 0 && phys != [] {
      var n := Min(size, bs);
      var rest := TakeBlocks(d, phys[1..], size - n).value;
      CopiedBytes(d, phys[1..], size - n, rest);
      LengthStep(bs, |phys|);
      forall i | 0 <= i < |out| ensures ByteOf(d, phys, i, out[i]) {
        if i < n {
          DivMod(i, bs, 0, i);
        } else {
          assert ByteOf(d, phys[1..], i - n, rest[i - n]);
          DivShift(i, bs);
        }
      }
    }
  }

  lemma LengthStep(bs: nat, n: nat)
    requires n > 0
    ensures bs * n == bs + bs * (n - 1)
  {
  }
}
