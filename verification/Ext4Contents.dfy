/** The file an extent list defines in ext4 (holes and uninitialised extents read as zeros), and the
    exact extent lists on which the reader, which never looks at logical block numbers, delivers it. */
module Ext4Contents {
  import opened Bytes
  import opened SparseImage
  import opened Ext4Layout
  import opened Ext4Files

  /** The physical block behind logical block l, None for a hole or an uninitialised extent. */
  function Mapped(es: seq<Extent>, l: nat): Option<nat> {
    if es == [] then None
    else if es[0].logical <= l < es[0].logical + es[0].len then
      if es[0].initialized then Some(es[0].start + (l - es[0].logical)) else None
    else Mapped(es[1..], l)
  }

  function ContentByte(d: Disk, es: seq<Extent>, i: nat): byte
    requires d.Valid() && d.blockSize > 0
  {
    match Mapped(es, i / d.blockSize)
    case None => 0
    case Some(p) =>
      match d.Read(p)
      case None => 0
      case Some(b) => b[i % d.blockSize]
  }

  function Content(d: Disk, es: seq<Extent>, size: nat): seq<byte>
    requires d.Valid() && d.blockSize > 0
  {
    seq(size, i requires 0 <= i => ContentByte(d, es, i))
  }

  /** Extents as a tree must list them: non-empty, ascending, not overlapping. */
  predicate OrderedFrom(es: seq<Extent>, from: nat) {
    es == [] ||
    (from <= es[0].logical && es[0].len > 0 && OrderedFrom(es[1..], es[0].logical + es[0].len))
  }

  /** The extents map the logical blocks from..need without a gap, each of them initialised. */
  predicate HoleFree(es: seq<Extent>, from: nat, need: nat) {
    need <= from ||
    (es != [] && es[0].logical == from && es[0].initialized && HoleFree(es[1..], from + es[0].len, need))
  }

  /** The l-th needed block, counted from `from`, is listed and is the block logical block l maps to. */
  predicate AgreesAt(es: seq<Extent>, phys: seq<nat>, from: nat, l: nat)
    requires from <= l
  {
    l - from < |phys| && Mapped(es, l) == Some(phys[l - from])
  }

  ghost predicate Agree(es: seq<Extent>, from: nat, need: nat) {
    forall l: nat :: from <= l < need ==> AgreesAt(es, PhysBlocks(Ranges(es)), from, l)
  }

  lemma {:induction false} MappedBelow(es: seq<Extent>, from: nat, l: nat)
    requires OrderedFrom(es, from) && l < from
    ensures Mapped(es, l) == None
  {
    if es != [] {
      MappedBelow(es[1..], es[0].logical + es[0].len, l);
    }
  }

  lemma PhysCons(es: seq<Extent>)
    requires es != []
    ensures PhysBlocks(Ranges(es))
         == seq(es[0].len, k requires 0 <= k => es[0].start + k) + PhysBlocks(Ranges(es[1..]))
  {
    assert Ranges(es)[1..] == Ranges(es[1..]);
  }

  lemma {:induction false} HoleFreeAgrees(es: seq<Extent>, from: nat, need: nat)
    requires HoleFree(es, from, need)
    ensures Agree(es, from, need)
  {
    if from < need {
      var next := from + es[0].len;
      HoleFreeAgrees(es[1..], next, need);
      forall l: nat | from <= l < need ensures AgreesAt(es, PhysBlocks(Ranges(es)), from, l) {
        PhysCons(es);
        if next <= l {
          assert AgreesAt(es[1..], PhysBlocks(Ranges(es[1..])), next, l);
        }
      }
    }
  }

  lemma {:induction false} AgreeingIsHoleFree(es: seq<Extent>, from: nat, need: nat)
    requires OrderedFrom(es, from) && Agree(es, from, need)
    ensures HoleFree(es, from, need)
  {
    if from < need {
      assert AgreesAt(es, PhysBlocks(Ranges(es)), from, from);
      PhysCons(es);
      var rest, next := es[1..], es[0].logical + es[0].len;
      if from < es[0].logical {
        MappedBelow(rest, next, from);
      }
      assert es[0].logical == from && es[0].initialized by {
        assert PhysBlocks(Ranges(es))[0] == es[0].start;
      }
      var phys, tail := PhysBlocks(Ranges(es)), PhysBlocks(Ranges(rest));
      forall l: nat | next <= l < need ensures AgreesAt(rest, tail, next, l) {
        assert AgreesAt(es, phys, from, l);
      }
      AgreeingIsHoleFree(rest, next, need);
    }
  }

  /** Byte counts and block counts of a file of `size` bytes. */
  lemma {:induction false} NeededBounds(size: nat, bs: nat)
    requires bs > 0
    ensures size <= bs * Needed(size, bs)
    ensures forall i: nat :: i < size ==> i / bs < Needed(size, bs)
    ensures forall l: nat :: l < Needed(size, bs) ==> l * bs < size
  {
    if size > 0 {
      var n := Min(size, bs);
      NeededBounds(size - n, bs);
      LengthStep(bs, Needed(size, bs));
      forall i: nat | i < size ensures i / bs < Needed(size, bs) {
        if i < bs { DivMod(i, bs, 0, i); } else { DivShift(i, bs); }
      }
      forall l: nat | l < Needed(size, bs) ensures l * bs < size {
        if l > 0 {
          assert (l - 1) * bs < size - n;
          assert l * bs == (l - 1) * bs + bs;
        }
      }
    }
  }

  /** The blocks of the extents `es` that were reached are, from 0 on, the blocks a file with the extents
      `all` has there. */
  ghost predicate AgreeWith(es: seq<Extent>, all: seq<Extent>, need: nat) {
    forall l: nat :: 0 <= l < need ==> AgreesAt(all, PhysBlocks(Ranges(es)), 0, l)
  }

  /** On a list that agrees with the mapping the copy is the file the extents define. */
  lemma AgreeingReads(d: Disk, es: seq<Extent>, all: seq<Extent>, size: nat)
    requires d.Valid() && d.blockSize > 0 && AgreeWith(es, all, Needed(size, d.blockSize))
    requires NeededReadable(d, PhysBlocks(Ranges(es)), size)
    ensures TakeBlocks(d, PhysBlocks(Ranges(es)), size) == Some(Content(d, all, size))
  {
    var phys, bs := PhysBlocks(Ranges(es)), d.blockSize;
    CopySucceeds(d, phys, size);
    var out := TakeBlocks(d, phys, size).value;
    CopiedBytes(d, phys, size, out);
    EnoughBlocks(es, all, size, bs);
    forall i | 0 <= i < size ensures out[i] == ContentByte(d, all, i) {
      assert ByteOf(d, phys, i, out[i]);
      NeededBounds(size, bs);
      QuotientNat(i, bs);
      assert AgreesAt(all, phys, 0, i / bs);
    }
    assert out == Content(d, all, size);
  }

  lemma EnoughBlocks(es: seq<Extent>, all: seq<Extent>, size: nat, bs: nat)
    requires bs > 0 && AgreeWith(es, all, Needed(size, bs))
    ensures Min(size, bs * |PhysBlocks(Ranges(es))|) == size
  {
    var phys, need := PhysBlocks(Ranges(es)), Needed(size, bs);
    NeededBounds(size, bs);
    if need > 0 {
      assert AgreesAt(all, phys, 0, need - 1);
    }
    MulMono(need, |phys|, bs);
    assert bs * need == need * bs && bs * |phys| == |phys| * bs;
  }

  /** A file read is right when its logical blocks are mapped in order, without holes, initialised. */
  lemma HoleFreeReads(d: Disk, es: seq<Extent>, size: nat)
    requires d.Valid() && d.blockSize > 0 && HoleFree(es, 0, Needed(size, d.blockSize))
    requires NeededReadable(d, PhysBlocks(Ranges(es)), size)
    ensures TakeBlocks(d, PhysBlocks(Ranges(es)), size) == Some(Content(d, es, size))
  {
    HoleFreeAgrees(es, 0, Needed(size, d.blockSize));
    AgreeingReads(d, es, es, size);
  }

  /** Whatever the disk holds, copying the blocks of `es` delivers the file with the extents `all`. */
  ghost predicate AlwaysRight(es: seq<Extent>, all: seq<Extent>, bs: nat, size: nat)
    requires bs > 0
  {
    forall d: Disk :: d.Valid() && d.blockSize == bs && NeededReadable(d, PhysBlocks(Ranges(es)), size) ==>
      TakeBlocks(d, PhysBlocks(Ranges(es)), size) == Some(Content(d, all, size))
  }

  function Bound(phys: seq<nat>): (r: nat)
    ensures forall i :: 0 <= i < |phys| ==> phys[i] < r
  {
    if phys == [] then 0 else
      var r := Bound(phys[1..]);
      assert forall i :: 0 < i < |phys| ==> phys[i] == phys[1..][i - 1];
      if phys[0] < r then r else phys[0] + 1
  }

  /** A readable disk whose only non-zero block is `marked`. */
  function MarkedDisk(bs: nat, count: nat, marked: nat): (d: Disk)
    ensures d.Valid() && d.blockSize == bs && |d.blocks| == count && AllReadable(d)
  {
    Disk(bs, seq(count, p => Some(seq(bs, _ => if p == marked then 1 else 0))))
  }

  /** On a readable disk a reader that is always right delivers all bytes, each from its listed block. */
  lemma AllDelivered(d: Disk, es: seq<Extent>, all: seq<Extent>, size: nat)
    requires d.Valid() && AllReadable(d) && d.blockSize > 0 && |d.blocks| == Bound(PhysBlocks(Ranges(es)))
    requires AlwaysRight(es, all, d.blockSize, size)
    ensures size <= d.blockSize * |PhysBlocks(Ranges(es))|
    ensures forall i :: 0 <= i < size ==> ByteOf(d, PhysBlocks(Ranges(es)), i, ContentByte(d, all, i))
  {
    var phys := PhysBlocks(Ranges(es));
    assert NeededReadable(d, phys, size);
    hide PhysBlocks, ByteOf, TakeBlocks, ContentByte, NeededReadable;
    CopySucceeds(d, phys, size);
    var out := TakeBlocks(d, phys, size).value;
    CopiedBytes(d, phys, size, out);
    assert out == Content(d, all, size);
    forall i | 0 <= i < size ensures ByteOf(d, phys, i, ContentByte(d, all, i)) {
      assert out[i] == ContentByte(d, all, i);
    }
  }

  lemma MulLess(a: nat, b: nat, c: nat)
    ensures a * c < b * c ==> a < b
  {
    if b <= a {
      MulMono(b, a, c);
    }
  }

  lemma DisagreementShows(es: seq<Extent>, all: seq<Extent>, bs: nat, size: nat, l: nat)
    requires bs > 0 && l < Needed(size, bs) && AlwaysRight(es, all, bs, size)
    ensures AgreesAt(all, PhysBlocks(Ranges(es)), 0, l)
  {
    hide PhysBlocks, AlwaysRight, Needed, Bound, Mapped;
    var phys := PhysBlocks(Ranges(es));
    NeededBounds(size, bs);
    var marked := if l < |phys| then phys[l] else 0;
    var d := MarkedDisk(bs, Bound(phys), marked);
    AllDelivered(d, es, all, size);
    MulLess(l, |phys|, bs);
    DivMod(l * bs, bs, l, 0);
    assert ByteOf(d, phys, l * bs, ContentByte(d, all, l * bs));
    assert ContentByte(d, all, l * bs) == 1;
  }

  /** Over all disk contents, copying the blocks of `es` delivers the file with the extents `all` exactly
      when every needed block of the file stands at its place in the list. */
  lemma RightExactlyWhenAgreeing(es: seq<Extent>, all: seq<Extent>, bs: nat, size: nat)
    requires bs > 0
    ensures AlwaysRight(es, all, bs, size) <==> AgreeWith(es, all, Needed(size, bs))
  {
    if AgreeWith(es, all, Needed(size, bs)) {
      forall d: Disk | d.Valid() && d.blockSize == bs && NeededReadable(d, PhysBlocks(Ranges(es)), size)
        ensures TakeBlocks(d, PhysBlocks(Ranges(es)), size) == Some(Content(d, all, size))
      {
        AgreeingReads(d, es, all, size);
      }
    }
    if AlwaysRight(es, all, bs, size) {
      forall l: nat | 0 <= l < Needed(size, bs) ensures AgreesAt(all, PhysBlocks(Ranges(es)), 0, l) {
        DisagreementShows(es, all, bs, size, l);
      }
    }
  }

  /** Over all disk contents, the reader delivers the file the extents define exactly when the needed
      logical blocks are mapped from 0 on without holes by initialised extents. */
  lemma CorrectExactlyWhenHoleFree(es: seq<Extent>, bs: nat, size: nat)
    requires bs > 0 && OrderedFrom(es, 0)
    ensures AlwaysRight(es, es, bs, size) <==> HoleFree(es, 0, Needed(size, bs))
  {
    RightExactlyWhenAgreeing(es, es, bs, size);
    if HoleFree(es, 0, Needed(size, bs)) {
      HoleFreeAgrees(es, 0, Needed(size, bs));
    }
    if AgreeWith(es, es, Needed(size, bs)) {
      AgreeingIsHoleFree(es, 0, Needed(size, bs));
    }
  }

  // ---------------------------------------------------------------------------
  // Some extents lost
  // ---------------------------------------------------------------------------

  predicate Covers(e: Extent, l: nat) {
    e.logical <= l < e.logical + e.len
  }

  /** In an ordered list the extent that covers a block is the one that maps it. */
  lemma {:induction false} OrderedMember(all: seq<Extent>, from: nat, e: Extent, l: nat)
    requires OrderedFrom(all, from) && e in all
    ensures from <= e.logical && e.len > 0
    ensures Covers(e, l) ==> Mapped(all, l) == if e.initialized then Some(e.start + (l - e.logical)) else None
  {
    var rest := all[1..];
    if e != all[0] {
      assert e in rest;
      OrderedMember(rest, all[0].logical + all[0].len, e, l);
    }
  }

  lemma {:induction false} MappedBy(all: seq<Extent>, l: nat) returns (e: Extent)
    requires Mapped(all, l).Some?
    ensures e in all && Covers(e, l) && e.initialized && Mapped(all, l) == Some(e.start + (l - e.logical))
  {
    if Covers(all[0], l) {
      e := all[0];
    } else {
      e := MappedBy(all[1..], l);
    }
  }

  lemma {:induction false} PartAgrees(es: seq<Extent>, all: seq<Extent>, from: nat, need: nat)
    requires OrderedFrom(all, 0) && (forall e :: e in es ==> e in all) && HoleFree(es, from, need)
    ensures forall l: nat :: from <= l < need ==> AgreesAt(all, PhysBlocks(Ranges(es)), from, l)
  {
    if from < need {
      var next := from + es[0].len;
      PartAgrees(es[1..], all, next, need);
      forall l: nat | from <= l < need ensures AgreesAt(all, PhysBlocks(Ranges(es)), from, l) {
        PhysCons(es);
        if next <= l {
          assert AgreesAt(all, PhysBlocks(Ranges(es[1..])), next, l);
        } else {
          OrderedMember(all, 0, es[0], l);
        }
      }
    }
  }

  /** No two extents share a physical block. */
  ghost predicate OwnBlocks(all: seq<Extent>) {
    forall e, f, p :: e in all && f in all && Stores(e, p) && Stores(f, p) ==> e == f
  }

  predicate Stores(e: Extent, p: nat) {
    e.start <= p < e.start + e.len
  }

  lemma {:induction false} AgreeingPartIsHoleFree(es: seq<Extent>, all: seq<Extent>, from: nat, need: nat)
    requires OrderedFrom(all, 0) && OwnBlocks(all) && forall e :: e in es ==> e in all
    requires forall l: nat :: from <= l < need ==> AgreesAt(all, PhysBlocks(Ranges(es)), from, l)
    ensures HoleFree(es, from, need)
  {
    if from < need {
      var phys := PhysBlocks(Ranges(es));
      assert AgreesAt(all, phys, from, from);
      assert es != [] by { assert phys != []; }
      PhysCons(es);
      var f := MappedBy(all, from);
      OrderedMember(all, 0, es[0], 0);
      assert phys[0] == es[0].start == f.start + (from - f.logical);
      assert Stores(es[0], phys[0]) && Stores(f, phys[0]);
      var rest, next := es[1..], from + es[0].len;
      forall l: nat | next <= l < need ensures AgreesAt(all, PhysBlocks(Ranges(rest)), next, l) {
        assert AgreesAt(all, phys, from, l);
      }
      AgreeingPartIsHoleFree(rest, all, next, need);
    }
  }

  /** When part of a file's extents is lost with an unreadable node, a success is the whole file, over
      all disk contents, exactly when the extents that were reached are hole-free over the file's size
      (if no two extents share a physical block; that they are hole-free suffices in any case). */
  lemma PartIsWholeFile(es: seq<Extent>, all: seq<Extent>, bs: nat, size: nat)
    requires bs > 0 && OrderedFrom(all, 0) && forall e :: e in es ==> e in all
    ensures HoleFree(es, 0, Needed(size, bs)) ==> AlwaysRight(es, all, bs, size)
    ensures OwnBlocks(all) && AlwaysRight(es, all, bs, size) ==> HoleFree(es, 0, Needed(size, bs))
  {
    RightExactlyWhenAgreeing(es, all, bs, size);
    if HoleFree(es, 0, Needed(size, bs)) {
      PartAgrees(es, all, 0, Needed(size, bs));
    }
    if OwnBlocks(all) && AgreeWith(es, all, Needed(size, bs)) {
      AgreeingPartIsHoleFree(es, all, 0, Needed(size, bs));
    }
  }
}
