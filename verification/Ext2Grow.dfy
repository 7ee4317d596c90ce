/** What filling one slot of one inode does to a volume, and what it leaves alone. */
module Ext2Grow {
  import opened Basics
  import opened Ext2Block
  import opened Ext2Tree
  import opened Ext2Bitmap

  /** Only the block pointers of ino may differ among the inodes. */
  ghost predicate SameShape(v: Volume, w: Volume, ino: nat) {
    && w.part == v.part && w.usable == v.usable && w.inodes.Keys == v.inodes.Keys
    && ino in v.inodes
    && w.inodes[ino] == v.inodes[ino].(addrs := w.inodes[ino].addrs)
    && (forall j :: j in v.inodes && j != ino ==> w.inodes[j] == v.inodes[j])
  }

  /** The block recorded at a position. */
  function Contents(v: Volume, ino: nat, p: Pos): Block
    requires ino in v.inodes
  {
    var at := Abs(v.part, v.At(ino, p));
    if at in v.disk then v.disk[at] else ZeroBlock()
  }

  /** Slot p of ino is filled in w. If it was filled before nothing changed; otherwise the
      other data slots, the recorded index blocks and all recorded data are as in v, and a
      new data block reads as zeros. */
  ghost predicate Grew(v: Volume, w: Volume, ino: nat, p: Pos) {
    && SameShape(v, w, ino) && w.Owned()
    && w.At(ino, p) != 0
    && (v.At(ino, p) != 0 ==> w == v)
    && (forall j, q: Pos :: j in v.inodes && (v.At(j, q) != 0 || (q.Data() && (j, q) != (ino, p))) ==>
          w.At(j, q) == v.At(j, q))
    && (forall j, q: Pos :: j in v.inodes && q.Data() && v.At(j, q) != 0 ==> Contents(w, j, q) == Contents(v, j, q))
    && (v.At(ino, p) == 0 && p.Data() ==> Contents(w, ino, p) == ZeroBlock())
  }

  /** A filled slot means nothing was done. */
  lemma GrewIdle(v: Volume, w: Volume, ino: nat, p: Pos)
    requires Grew(v, w, ino, p)
    ensures v.At(ino, p) != 0 ==> w == v
  {}

  lemma GrewFilled(v: Volume, w: Volume, ino: nat, p: Pos)
    requires Grew(v, w, ino, p)
    ensures ino in w.inodes && w.At(ino, p) != 0
  {}

  lemma GrewShape(v: Volume, w: Volume, ino: nat, p: Pos)
    requires Grew(v, w, ino, p)
    ensures SameShape(v, w, ino)
  {}

  lemma AdoptGrew(v: Volume, d: Disk, ino: nat, p: Pos, b: nat)
    requires v.Owned() && v.Balloced(d, b) && v.Vacant(ino, p)
    ensures Grew(v, v.Adopt(d, ino, p, b), ino, p)
  {
    v.AdoptOwned(d, ino, p, b);
    v.AdoptAll(d, ino, p, b);
    AdoptData(v, d, ino, p, b);
  }

  lemma AdoptData(v: Volume, d: Disk, ino: nat, p: Pos, b: nat)
    requires v.Owned() && v.Balloced(d, b) && v.Vacant(ino, p)
    ensures var w := v.Adopt(d, ino, p, b);
            && (forall j, q: Pos :: j in v.inodes && q.Data() && v.At(j, q) != 0 ==>
                  Contents(w, j, q) == Contents(v, j, q))
            && Contents(w, ino, p) == ZeroBlock()
  {
    var w := v.Adopt(d, ino, p, b);
    forall j, q: Pos | j in v.inodes && q.Data() && v.At(j, q) != 0
      ensures Contents(w, j, q) == Contents(v, j, q)
    {
      v.AdoptContents(d, ino, p, b, j, q);
      v.AdoptAt(d, ino, p, b, j, q);
    }
    v.AdoptFresh(d, ino, p, b);
    v.AdoptAt(d, ino, p, b, ino, p);
  }

  /** Filling an index slot and then a slot below it. */
  lemma GrewTrans(u: Volume, v: Volume, w: Volume, ino: nat, p: Pos, q: Pos)
    requires Grew(u, v, ino, p) && Grew(v, w, ino, q)
    requires !q.Top() && q.Parent() == p
    ensures Grew(u, w, ino, q)
  {
    u.AtChild(ino, q);
    assert u.At(ino, q) != 0 ==> v.At(ino, q) == u.At(ino, q);
  }

  /** d is the disk of v with only the allocation bit of b switched, as far as the
      descriptors and the bitmaps go. */
  ghost predicate BitSwitched(geo: Geometry, v: Volume, d: Disk, b: nat, on: bool)
    requires geo.Valid()
  {
    && d.Keys == v.disk.Keys
    && (Abs(v.part, 2) in d ==> d[Abs(v.part, 2)] == v.disk[Abs(v.part, 2)])
    && (forall c :: InGroup(geo, c) ==>
          (Allocated(geo, v.part, d, c) <==> if c == b then on else Allocated(geo, v.part, v.disk, c)))
  }

  /** The set bits still match the owners after allocating b and recording it. */
  lemma AdoptBitmaps(geo: Geometry, v: Volume, d: Disk, ino: nat, p: Pos, b: nat)
    requires BitmapsAgree(geo, v) && v.Owned() && v.Balloced(d, b) && v.Vacant(ino, p)
    requires BitSwitched(geo, v, d, b, true)
    ensures BitmapsAgree(geo, v.Adopt(d, ino, p, b))
  {
    var w := v.(disk := d, owner := v.owner[b := (ino, p)]);
    SwitchedBitmaps(geo, v, d, b, true, w.owner);
    StoreOnlyUsable(v, d, ino, p, b);
    UsableWrite(geo, w, v.Adopt(d, ino, p, b));
  }

  // ---- what the operations rely on, in one piece ----

  /** The invariant of the volume: one owner per recorded block, bitmaps that agree, and
      every inode in a group that exists. */
  ghost predicate Good(geo: Geometry, v: Volume) {
    && BitmapsAgree(geo, v) && v.Owned()
    && (forall ino :: ino in v.inodes ==> geo.GroupOfInode(ino) < |geo.bitmaps|)
  }

  /** Neither the descriptor block nor a bitmap nor a free block is locked. */
  ghost predicate CanAlloc(geo: Geometry, v: Volume, held: set<nat>) {
    && Abs(v.part, 2) !in held
    && (forall g :: 0 <= g < |geo.bitmaps| ==> Abs(v.part, geo.bitmaps[g]) !in held)
    && (forall b :: b in v.usable && b !in v.owner ==> Abs(v.part, b) !in held)
  }

  /** d is the disk of v after b has been taken from its bitmap and zeroed. */
  ghost predicate Taken(geo: Geometry, v: Volume, d: Disk, b: nat) {
    geo.Valid() && v.Balloced(d, b) && BitSwitched(geo, v, d, b, true)
  }

  /** Every block of the inode's group is allocated. */
  ghost predicate Full(geo: Geometry, v: Volume, ino: nat) {
    && geo.Valid()
    && forall b :: InGroup(geo, b) && geo.Group(b) == geo.GroupOfInode(ino) ==> Allocated(geo, v.part, v.disk, b)
  }

  /** A filled top slot: balloc is not needed. */
  lemma AlreadyFilled(geo: Geometry, v: Volume, ino: nat, p: Pos)
    requires Good(geo, v) && ino in v.inodes && v.At(ino, p) != 0
    ensures Grew(v, v, ino, p)
  {}

  lemma AdoptGood(geo: Geometry, v: Volume, d: Disk, ino: nat, p: Pos, b: nat)
    requires Good(geo, v) && Taken(geo, v, d, b) && v.Vacant(ino, p)
    ensures b < U32
    ensures var w := v.Adopt(d, ino, p, b);
            Good(geo, w) && Grew(v, w, ino, p) && w.At(ino, p) == b != 0
  {
    AdoptGrew(v, d, ino, p, b);
    v.AdoptAt(d, ino, p, b, ino, p);
    AdoptBitmaps(geo, v, d, ino, p, b);
  }

  /** In a word of an index block, whose other contents balloc left alone. */
  lemma AdoptInIndex(geo: Geometry, v: Volume, d: Disk, ino: nat, p: Pos, b: nat)
    requires Good(geo, v) && Taken(geo, v, d, b) && v.Vacant(ino, p) && !p.Top()
    ensures var at := Abs(v.part, v.At(ino, p.Parent()));
            && at in v.disk && at in d && d[at] == v.disk[at]
            && v.Adopt(d, ino, p, b) ==
               v.(disk := d[at := SetWord(d[at], p.Index(), b)], owner := v.owner[b := (ino, p)])
  {
    v.BallocKeeps(d, b, ino, p.Parent());
  }

  /** An index block is a recorded block: it is neither the descriptor block nor a bitmap
      nor a free block, so balloc can run while it is locked. */
  lemma OpenIndex(geo: Geometry, v: Volume, ino: nat, p: Pos)
    requires Good(geo, v) && ino in v.inodes && !p.Top() && v.At(ino, p.Parent()) != 0
    ensures var index := v.At(ino, p.Parent());
            && Abs(v.part, index) in v.disk
            && v.At(ino, p) == GetWord(v.disk[Abs(v.part, index)], p.Index())
            && CanAlloc(geo, v, {Abs(v.part, index)})
    ensures v.At(ino, p) == 0 ==> v.Vacant(ino, p)
    ensures v.At(ino, p) != 0 ==> Grew(v, v, ino, p)
  {
    v.AtChild(ino, p);
    var index := v.At(ino, p.Parent());
    assert index in v.owner;
    forall b: nat | Abs(v.part, b) == Abs(v.part, index) ensures b == index {}
  }

  /** Recording the block writes at most one block, an index block. */
  lemma StoreOnlyUsable(v: Volume, d: Disk, ino: nat, p: Pos, b: nat)
    requires v.Owned() && v.Balloced(d, b) && v.Vacant(ino, p)
    ensures d.Keys <= v.Adopt(d, ino, p, b).disk.Keys
    ensures forall m: nat :: m !in v.usable && Abs(v.part, m) in d ==>
              v.Adopt(d, ino, p, b).disk[Abs(v.part, m)] == d[Abs(v.part, m)]
  {
    if !p.Top() {
      v.BallocKeeps(d, b, ino, p.Parent());
      assert v.At(ino, p.Parent()) in v.owner;
      assert v.At(ino, p.Parent()) in v.usable;
    }
  }

  lemma SwitchedBitmaps(geo: Geometry, v: Volume, d: Disk, b: nat, on: bool, owner: Owner)
    requires BitmapsAgree(geo, v) && b in v.usable
    requires BitSwitched(geo, v, d, b, on)
    requires forall c :: c in owner <==> if c == b then on else c in v.owner
    ensures BitmapsAgree(geo, v.(disk := d, owner := owner))
  {}

  /** Switching one bit in its bitmap block. */
  lemma SwitchedAt(geo: Geometry, v: Volume, b: nat, on: bool)
    requires BitmapsAgree(geo, v) && b in v.usable
    ensures var d := SwitchBit(geo, v.part, v.disk, b, on);
            && BitSwitched(geo, v, d, b, on)
            && (forall c :: c in v.usable && Abs(v.part, c) in d ==> d[Abs(v.part, c)] == v.disk[Abs(v.part, c)])
  {
    forall c | InGroup(geo, c)
      ensures Allocated(geo, v.part, SwitchBit(geo, v.part, v.disk, b, on), c) <==>
              if c == b then on else Allocated(geo, v.part, v.disk, c)
    {
      SwitchBitAllocated(geo, v.part, v.disk, b, on, c);
    }
  }

  /** Then zeroing the block itself. */
  lemma ZeroedAt(geo: Geometry, v: Volume, b: nat)
    requires BitmapsAgree(geo, v) && v.Owned() && b in v.usable && b !in v.owner
    ensures var d := SwitchBit(geo, v.part, v.disk, b, true)[Abs(v.part, b) := ZeroBlock()];
            v.Balloced(d, b) && BitSwitched(geo, v, d, b, true)
  {
    var d := SwitchBit(geo, v.part, v.disk, b, true);
    var e := d[Abs(v.part, b) := ZeroBlock()];
    SwitchedAt(geo, v, b, true);
    forall c | InGroup(geo, c)
      ensures Allocated(geo, v.part, e, c) <==> Allocated(geo, v.part, d, c)
    {
      assert geo.bitmaps[geo.Group(c)] !in v.usable;
      assert Abs(v.part, geo.bitmaps[geo.Group(c)]) != Abs(v.part, b);
    }
  }
}
