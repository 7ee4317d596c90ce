/** Room in a group: which slots a longer file still has to fill, which blocks its group
    has left for them, and how long a file can get at all. */
module Ext2Space {
  import opened Basics
  import opened Ext2Block
  import opened Ext2Tree
  import opened Ext2Bitmap
  import opened Ext2Grow
  import opened Ext2Trunc
  import opened Ext2File

  /** A slot and the index blocks above it. */
  function Upward(p: Pos): (s: set<Pos>)
    ensures p in s && (!p.Top() ==> p.Parent() in s && Upward(p.Parent()) <= s)
    decreases p.Depth()
  {
    if p.Top() then {p} else Upward(p.Parent()) + {p}
  }

  /** The slots that are filled once the first n blocks of a file are mapped. */
  function Slots(n: nat): set<Pos> {
    set bn: nat, p: Pos | bn < n && bn < MAXBN && p in Upward(LeafPos(bn)) :: p
  }

  lemma SlotsHave(n: nat, bn: nat)
    requires bn < n && bn < MAXBN
    ensures Upward(LeafPos(bn)) <= Slots(n)
  {}

  /** One for each block, one for the list of the blocks from 12 on, one for the list of lists
      from 268 on and one for each 256 blocks or part of them there. */
  lemma {:induction false} SlotsCount(n: nat)
    requires n <= MAXBN
    ensures |Slots(n)| == if n <= 12 then n
                          else if n <= 268 then n + 1
                          else n + 2 + (n - 268 + 255) / 256
  {
    if n == 0 {
      assert Slots(0) == {};
    } else {
      SlotsCount(n - 1);
      OneBlockMore(n - 1);
    }
  }

  /** What the next block adds: its own slot, and the index blocks it is the first one below. */
  lemma OneBlockMore(bn: nat)
    requires bn < MAXBN
    ensures |Slots(bn + 1)| ==
            |Slots(bn)| + 1 + (if bn == 12 || bn == 268 then 1 else 0)
            + (if bn >= 268 && (bn - 268) % 256 == 0 then 1 else 0)
  {
    hide Slots, LeafPos;
    var s, p := Slots(bn), LeafPos(bn);
    SlotsNext(bn);
    LeafNew(bn);
    UpwardIs(bn);
    if bn < 12 {
      AddOne(s, p);
    } else {
      RootNew(bn);
      if bn < 268 {
        AddTwo(s, IndRoot, p);
      } else {
        ListNew(bn);
        AddOne(s, DindRoot);
        AddTwo(s + {DindRoot}, DindMid((bn - 268) / 256), p);
        assert Slots(bn + 1) == s + {DindRoot} + {DindMid((bn - 268) / 256), p};
      }
    }
  }

  lemma AddOne<T>(s: set<T>, x: T)
    ensures |s + {x}| == |s| + if x in s then 0 else 1
  {
    if x in s { assert s + {x} == s; }
  }

  lemma AddTwo<T>(s: set<T>, x: T, y: T)
    requires x != y && y !in s
    ensures |s + {x, y}| == |s| + if x in s then 1 else 2
  {
    assert s + {x, y} == s + {x} + {y};
    AddOne(s, x);
    AddOne(s + {x}, y);
  }

  lemma SlotsNext(bn: nat)
    requires bn < MAXBN
    ensures Slots(bn + 1) == Slots(bn) + Upward(LeafPos(bn))
  {
    hide LeafPos, Upward;
    forall p: Pos ensures p in Slots(bn + 1) <==> p in Slots(bn) || p in Upward(LeafPos(bn)) {
      if p in Slots(bn + 1) {
        var cn: nat :| cn < bn + 1 && p in Upward(LeafPos(cn));
      }
    }
  }

  lemma UpwardIs(bn: nat)
    requires bn < MAXBN
    ensures var p := LeafPos(bn);
            && (bn < 12 ==> p.Direct? && Upward(p) == {p})
            && (12 <= bn < 268 ==> p == IndLeaf(bn - 12) && Upward(p) == {IndRoot, p})
            && (268 <= bn ==> p == DindLeaf((bn - 268) / 256, (bn - 268) % 256) &&
                              Upward(p) == {DindRoot, DindMid((bn - 268) / 256), p})
  {
    var p := LeafPos(bn);
    if !p.Top() {
      assert Upward(p) == Upward(p.Parent()) + {p};
      if !p.Parent().Top() {
        assert Upward(p.Parent()) == Upward(p.Parent().Parent()) + {p.Parent()};
      }
    }
  }

  lemma LeafNew(bn: nat)
    requires bn < MAXBN
    ensures LeafPos(bn) !in Slots(bn)
  {
    hide Upward, LeafPos;
    if LeafPos(bn) in Slots(bn) {
      var cn: nat :| cn < bn && LeafPos(bn) in Upward(LeafPos(cn));
      UpwardIs(cn);
      UpwardIs(bn);
      LeafDiffer(cn, bn);
      assert false;
    }
  }

  lemma RootNew(bn: nat)
    requires bn < MAXBN
    ensures IndRoot in Slots(bn) <==> bn > 12
    ensures DindRoot in Slots(bn) <==> bn > 268
  {
    hide Upward, LeafPos;
    forall cn: nat | cn < bn
      ensures IndRoot in Upward(LeafPos(cn)) <==> 12 <= cn < 268
      ensures DindRoot in Upward(LeafPos(cn)) <==> 268 <= cn
    {
      UpwardIs(cn);
    }
    if bn > 12 { assert IndRoot in Upward(LeafPos(12)); }
    if bn > 268 { assert DindRoot in Upward(LeafPos(268)); }
  }

  /** The list of a block from 268 on is there already unless the block is its first one. */
  lemma ListNew(bn: nat)
    requires 268 <= bn < MAXBN
    ensures DindMid((bn - 268) / 256) in Slots(bn) <==> (bn - 268) % 256 != 0
  {
    hide Upward, LeafPos;
    var i := (bn - 268) / 256;
    if DindMid(i) in Slots(bn) {
      var cn: nat :| cn < bn && DindMid(i) in Upward(LeafPos(cn));
      UpwardIs(cn);
    }
    if (bn - 268) % 256 != 0 {
      UpwardIs(bn - 1);
      assert DindMid(i) in Upward(LeafPos(bn - 1));
    }
  }

  /** Those of them that ino has not filled. */
  ghost function Need(v: Volume, ino: nat, n: nat): (s: set<Pos>)
    requires ino in v.inodes
  {
    set p | p in Slots(n) && v.At(ino, p) == 0
  }

  /** The free blocks of the group of ino. */
  ghost function FreeIn(geo: Geometry, v: Volume, ino: nat): set<nat>
    requires geo.Valid()
  {
    set b | b in v.usable && b !in v.owner && geo.Group(b) == geo.GroupOfInode(ino)
  }

  /** The first n blocks of ino need more new blocks than its group has free. */
  ghost predicate Short(geo: Geometry, v: Volume, ino: nat, n: nat) {
    geo.Valid() && ino in v.inodes && |FreeIn(geo, v, ino)| < |Need(v, ino, n)|
  }

  /** Every recorded block is in the group of its inode. */
  ghost predicate Homed(geo: Geometry, v: Volume) {
    && geo.Valid()
    && forall b :: b in v.owner ==> InGroup(geo, b) && geo.Group(b) == geo.GroupOfInode(v.owner[b].0)
  }

  /** From v to w the slots filled for ino were paid for with as many blocks of its group. */
  ghost predicate Paid(geo: Geometry, v: Volume, w: Volume, ino: nat, n: nat) {
    && geo.Valid() && ino in v.inodes && ino in w.inodes
    && |Need(w, ino, n)| - |FreeIn(geo, w, ino)| == |Need(v, ino, n)| - |FreeIn(geo, v, ino)|
    && (Homed(geo, v) ==> Homed(geo, w))
  }

  lemma PaidTrans(geo: Geometry, u: Volume, v: Volume, w: Volume, ino: nat, n: nat)
    requires Paid(geo, u, v, ino, n) && Paid(geo, v, w, ino, n)
    ensures Paid(geo, u, w, ino, n)
  {}

  lemma PaidShort(geo: Geometry, v: Volume, w: Volume, ino: nat, n: nat)
    requires Paid(geo, v, w, ino, n)
    ensures Short(geo, w, ino, n) <==> Short(geo, v, ino, n)
  {}

  lemma PaidHomed(geo: Geometry, v: Volume, w: Volume, ino: nat, n: nat)
    requires Paid(geo, v, w, ino, n)
    ensures Homed(geo, v) ==> Homed(geo, w)
  {}

  /** One allocation fills one of the slots with one of the free blocks. */
  lemma AdoptPaid(geo: Geometry, v: Volume, d: Disk, ino: nat, p: Pos, b: nat, n: nat)
    requires Good(geo, v) && Taken(geo, v, d, b) && v.Vacant(ino, p) && p in Slots(n)
    requires geo.Group(b) == geo.GroupOfInode(ino)
    ensures b < U32 && Paid(geo, v, v.Adopt(d, ino, p, b), ino, n)
  {
    hide Volume.At, Volume.Adopt, Slots, BitmapsAgree, BitSwitched;
    var w := v.Adopt(d, ino, p, b);
    v.AdoptAll(d, ino, p, b);
    v.AdoptShape(d, ino, p, b);
    OneSlotLess(v, w, ino, p, b, n);
    OneBlockLess(geo, v, w, ino, p, b);
    InItsGroup(geo, v, b);
  }

  lemma InItsGroup(geo: Geometry, v: Volume, b: nat)
    requires BitmapsAgree(geo, v) && b in v.usable
    ensures InGroup(geo, b)
  {}

  lemma OneSlotLess(v: Volume, w: Volume, ino: nat, p: Pos, b: nat, n: nat)
    requires ino in v.inodes && ino in w.inodes && b != 0 && v.At(ino, p) == 0 && p in Slots(n)
    requires forall q: Pos :: w.At(ino, q) == if q == p then b else v.At(ino, q)
    ensures |Need(w, ino, n)| == |Need(v, ino, n)| - 1
  {
    hide Volume.At, Slots;
    OneLess(Need(v, ino, n), Need(w, ino, n), p);
  }

  lemma OneBlockLess(geo: Geometry, v: Volume, w: Volume, ino: nat, p: Pos, b: nat)
    requires geo.Valid() && b in v.usable && b !in v.owner && geo.Group(b) == geo.GroupOfInode(ino)
    requires w.usable == v.usable && w.owner == v.owner[b := (ino, p)]
    ensures |FreeIn(geo, w, ino)| == |FreeIn(geo, v, ino)| - 1
  {
    OneLess(FreeIn(geo, v, ino), FreeIn(geo, w, ino), b);
  }

  lemma OneLess<T>(s: set<T>, t: set<T>, x: T)
    requires x in s && t == s - {x}
    ensures |t| == |s| - 1
  {}

  /** Where no block is free an empty slot cannot be filled. */
  lemma FullShort(geo: Geometry, v: Volume, ino: nat, p: Pos, n: nat)
    requires Good(geo, v) && Full(geo, v, ino) && ino in v.inodes
    requires p in Slots(n) && v.At(ino, p) == 0
    ensures Short(geo, v, ino, n)
  {
    hide Volume.At, Slots;
    assert p in Need(v, ino, n);
    forall b | b in v.usable && b !in v.owner ensures geo.Group(b) != geo.GroupOfInode(ino) {
      assert InGroup(geo, b);
    }
    assert FreeIn(geo, v, ino) == {};
  }

  /** Steps that move no block. */
  lemma SameTreePaid(geo: Geometry, v: Volume, w: Volume, ino: nat, n: nat)
    requires geo.Valid() && ino in v.inodes && ino in w.inodes
    requires w.usable == v.usable && w.owner == v.owner
    requires forall q: Pos :: w.At(ino, q) == v.At(ino, q)
    ensures Paid(geo, v, w, ino, n)
  {
    assert Need(w, ino, n) == Need(v, ino, n);
    assert FreeIn(geo, w, ino) == FreeIn(geo, v, ino);
  }

  /** Nothing is missing once all n blocks are mapped. */
  lemma MappedEnough(geo: Geometry, v: Volume, ino: nat, n: nat)
    requires ino in v.inodes && n <= MAXBN
    requires forall bn :: 0 <= bn < n ==> v.At(ino, LeafPos(bn)) != 0
    ensures !Short(geo, v, ino, n)
  {
    forall p | p in Slots(n) ensures v.At(ino, p) != 0 {
      var bn: nat :| bn < n && bn < MAXBN && p in Upward(LeafPos(bn));
      PathFilled(v, ino, LeafPos(bn), p);
    }
    assert Need(v, ino, n) == {};
  }

  lemma {:induction false} PathFilled(v: Volume, ino: nat, p: Pos, q: Pos)
    requires ino in v.inodes && v.At(ino, p) != 0 && q in Upward(p)
    ensures v.At(ino, q) != 0
    decreases p.Depth()
  {
    if q != p {
      v.ParentFilled(ino, p);
      PathFilled(v, ino, p.Parent(), q);
    }
  }

  /** A file already has the slots of the blocks below its size, so what it lacks for n blocks
      is at most the difference of the two counts. */
  lemma RoomEnough(geo: Geometry, v: Volume, ino: nat, n: nat)
    requires geo.Valid() && Files(v) && ino in v.inodes && Blocks(v.inodes[ino].size) <= n <= MAXBN
    ensures |Need(v, ino, n)| <= |Slots(n)| - |Slots(Blocks(v.inodes[ino].size))|
    ensures |FreeIn(geo, v, ino)| >= |Slots(n)| - |Slots(Blocks(v.inodes[ino].size))| ==> !Short(geo, v, ino, n)
  {
    var m := Blocks(v.inodes[ino].size);
    assert MappedTo(v, ino, m);
    forall p | p in Slots(m) ensures v.At(ino, p) != 0 && p in Slots(n) {
      var bn: nat :| bn < m && bn < MAXBN && p in Upward(LeafPos(bn));
      PathFilled(v, ino, LeafPos(bn), p);
    }
    Fewer(Need(v, ino, n), Slots(n) - Slots(m));
    Without(Slots(n), Slots(m));
  }

  lemma Without<T>(s: set<T>, t: set<T>)
    requires t <= s
    ensures |s - t| == |s| - |t|
  {}

  lemma {:induction false} Fewer<T>(s: set<T>, t: set<T>)
    requires s <= t
    ensures |s| <= |t|
  {
    assert t == s + (t - s);
    assert |t| == |s| + |t - s|;
  }

  // ---- how long a file can get ----

  /** Two blocks of one file in its own group have different places in the bitmap. */
  lemma PlacesDiffer(geo: Geometry, v: Volume, ino: nat, an: nat, bn: nat)
    requires Good(geo, v) && Homed(geo, v) && ino in v.inodes && an < bn < MAXBN
    requires v.At(ino, LeafPos(an)) != 0 && v.At(ino, LeafPos(bn)) != 0
    ensures geo.Bit(v.At(ino, LeafPos(an))) != geo.Bit(v.At(ino, LeafPos(bn)))
  {
    var a, b := v.At(ino, LeafPos(an)), v.At(ino, LeafPos(bn));
    LeafDiffer(an, bn);
    v.OneOwner(ino, LeafPos(an), ino, LeafPos(bn));
    assert v.owner[a] == (ino, LeafPos(an)) && v.owner[b] == (ino, LeafPos(bn));
    if geo.Bit(a) == geo.Bit(b) {
      geo.PlaceInjective(a, b);
    }
  }

  /** A file whose blocks are all in the group of its inode has at most as many of them as
      a group has, which is far below the limit of ext2fs_writei. */
  lemma SizeInGroup(geo: Geometry, v: Volume, ino: nat)
    requires Good(geo, v) && Files(v) && Homed(geo, v) && ino in v.inodes
    ensures Blocks(v.inodes[ino].size) <= geo.perGroup
    ensures v.inodes[ino].size <= 8192 * 1024
  {
    var n := Blocks(v.inodes[ino].size);
    assert MappedTo(v, ino, n);
    var places := seq(n, bn requires 0 <= bn < n => geo.Bit(v.At(ino, LeafPos(bn))));
    forall i, j | 0 <= i < j < n ensures places[i] != places[j] {
      PlacesDiffer(geo, v, ino, i, j);
    }
    Pigeonhole(places, geo.perGroup);
  }

  // ---- the other operations ----

  /** Rewriting a data block moves no block. */
  lemma DataPaid(geo: Geometry, v: Volume, ino: nat, p: Pos, blk: Block, n: nat)
    requires Good(geo, v) && ino in v.inodes && p.Data() && v.At(ino, p) != 0
    ensures Paid(geo, v, v.(disk := v.disk[Abs(v.part, v.At(ino, p)) := blk]), ino, n)
  {
    var w := v.(disk := v.disk[Abs(v.part, v.At(ino, p)) := blk]);
    forall q: Pos ensures w.At(ino, q) == v.At(ino, q) {
      DataWriteAt(v, ino, p, blk, ino, q);
    }
    SameTreePaid(geo, v, w, ino, n);
  }

  /** A finished write has what it needs. */
  lemma WritingEnough(geo: Geometry, v0: Volume, v: Volume, ino: nat, off: nat, src: seq<Byte>, mapped: nat)
    requires Writing(v0, v, ino, off, src, |src|, mapped) && off + |src| <= MAXBN * 1024
    ensures !Short(geo, v, ino, Blocks(off + |src|))
  {
    MappedEnough(geo, v, ino, Blocks(off + |src|));
  }

  lemma EmptiedHomed(geo: Geometry, v0: Volume, v: Volume, ino: nat)
    requires Good(geo, v0) && Good(geo, v) && Emptied(v0, v, ino)
    ensures Homed(geo, v0) ==> Homed(geo, v)
  {
    if !Homed(geo, v0) { return; }
    forall b | b in v.owner
      ensures InGroup(geo, b) && geo.Group(b) == geo.GroupOfInode(v.owner[b].0)
    {
      var (j, q) := v.owner[b];
      assert v.At(j, q) == b;
      assert v0.At(j, q) == b;
      assert v0.owner[b] == (j, q);
    }
  }

  /** A volume with no inode, whose bitmaps hold exactly what files may not use. */
  lemma EmptyVolume(geo: Geometry, v: Volume)
    requires BitmapsAgree(geo, v) && v.inodes == map[] && v.owner == map[]
    requires 0 !in v.usable && forall b :: b in v.usable ==> Abs(v.part, b) in v.disk
    ensures Good(geo, v) && Files(v) && Homed(geo, v)
  {}
}
