/** Block allocation bitmaps: one bitmap block per group, found through the group
    descriptors in block 2 of the partition. */
module Ext2Bitmap {
  import opened Basics
  import opened Ext2Block
  import opened Ext2Tree

  /** The superblock fields the block layer uses, and the bitmap block of each group. */
  datatype Geometry = Geometry(firstData: nat, perGroup: nat, inodesPerGroup: nat, bitmaps: seq<nat>)
  {
    predicate Valid() {
      && 1 <= firstData
      && 1 <= perGroup <= 8192
      && 1 <= inodesPerGroup
      && |bitmaps| <= 32
      && (forall g :: 0 <= g < |bitmaps| ==> bitmaps[g] != 2)
      && (forall g, h :: 0 <= g < h < |bitmaps| ==> bitmaps[g] != bitmaps[h])
    }

    function Group(b: nat): nat
      requires 1 <= perGroup
    {
      if b < firstData then |bitmaps| else (b - firstData) / perGroup
    }

    function Bit(b: nat): nat
      requires 1 <= perGroup <= 8192
      ensures Bit(b) < perGroup
    {
      if b < firstData then 0 else (b - firstData) % perGroup
    }

    /** GET_GROUP_NO */
    function GroupOfInode(ino: nat): nat {
      if ino == 0 || inodesPerGroup == 0 then |bitmaps| else (ino - 1) / inodesPerGroup
    }

    /** The block whose bit is `bit` in group g. */
    function BlockOf(g: nat, bit: nat): nat { firstData + g * perGroup + bit }

    /** The groups of a file system of n blocks. */
    function Groups(n: nat): nat
      requires 1 <= perGroup && firstData <= n
    {
      (n - firstData + perGroup - 1) / perGroup
    }

    /** The loop of ext2fs_ialloc over 0..n / perGroup visits every group. */
    lemma GroupsVisited(n: nat)
      requires 1 <= perGroup && 1 <= firstData <= n
      ensures Groups(n) <= n / perGroup + 1
    {
      var a := n / perGroup;
      DivBack(n, perGroup);
      var x := n - firstData + perGroup - 1;
      DivBack(x, perGroup);
      if x / perGroup >= a + 2 { ScaleUp(a + 2, x / perGroup, perGroup); }
    }

    /** With 1 KB blocks, where the first data block is 1, it goes on beyond the last group
        exactly when 0 or 1 blocks are left over. */
    lemma OneGroupMore(n: nat)
      requires 1 <= perGroup && firstData == 1 <= n
      ensures n / perGroup >= Groups(n) <==> n % perGroup <= 1
    {
      var a, r := n / perGroup, n % perGroup;
      DivBack(n, perGroup);
      var x := n - 1 + perGroup - 1;
      if perGroup == 1 {
      } else if r <= 1 {
        DivUnique(x, perGroup, a, r + perGroup - 2);
      } else {
        assert (a + 1) * perGroup == a * perGroup + perGroup;
        DivUnique(x, perGroup, a + 1, r - 2);
      }
    }

    /** The inode of bit k in the inode bitmap of group g. */
    function InodeOf(g: nat, k: nat): nat { g * inodesPerGroup + k + 1 }

    lemma InodePlace(g: nat, k: nat)
      requires k < inodesPerGroup
      ensures GroupOfInode(InodeOf(g, k)) == g && (InodeOf(g, k) - 1) % inodesPerGroup == k
    {
      DivUnique(g * inodesPerGroup + k, inodesPerGroup, g, k);
    }

    lemma InodeBack(n: nat)
      requires 0 < n && 0 < inodesPerGroup
      ensures InodeOf(GroupOfInode(n), (n - 1) % inodesPerGroup) == n
    {
      DivBack(n - 1, inodesPerGroup);
    }

    /** Numbers below that of (g, k) belong to earlier groups or earlier bits. */
    lemma InodesBelow(g: nat, k: nat, n: nat) returns (h: nat, l: nat)
      requires k < inodesPerGroup && 0 < n < InodeOf(g, k)
      ensures l < inodesPerGroup && n == InodeOf(h, l) && (h < g || (h == g && l < k))
    {
      h, l := (n - 1) / inodesPerGroup, (n - 1) % inodesPerGroup;
      DivBack(n - 1, inodesPerGroup);
      if h > g { ScaleUp(g + 1, h, inodesPerGroup); }
    }

    lemma BlockPlace(g: nat, bit: nat)
      requires Valid() && bit < perGroup
      ensures Group(BlockOf(g, bit)) == g && Bit(BlockOf(g, bit)) == bit
    {
      var x := g * perGroup + bit;
      DivUnique(x, perGroup, g, bit);
    }

    lemma PlaceInjective(b: nat, c: nat)
      requires Valid() && firstData <= b && firstData <= c
      requires Group(b) == Group(c) && Bit(b) == Bit(c)
      ensures b == c
    {
      DivBack(b - firstData, perGroup);
      DivBack(c - firstData, perGroup);
    }
  }

  lemma DivBack(x: nat, per: nat)
    requires 0 < per
    ensures x == (x / per) * per + x % per
  {}

  lemma DivUnique(x: nat, per: nat, g: nat, r: nat)
    requires r < per && x == g * per + r
    ensures x / per == g && x % per == r
  {
    DivisionIff(x, per, g);
  }

  /** Block b belongs to a group. */
  predicate InGroup(geo: Geometry, b: nat)
    requires geo.Valid()
  {
    geo.firstData <= b && geo.Group(b) < |geo.bitmaps|
  }

  /** The allocation bit of block b. */
  predicate Allocated(geo: Geometry, part: nat, disk: Disk, b: nat)
    requires geo.Valid() && InGroup(geo, b)
  {
    var at := Abs(part, geo.bitmaps[geo.Group(b)]);
    at in disk && BlockBit(disk[at], geo.Bit(b))
  }

  /** The descriptors point at the bitmaps, no bitmap can be handed out, and the set bits
      are exactly the blocks that are owned or not available to files. */
  ghost predicate BitmapsAgree(geo: Geometry, v: Volume) {
    && geo.Valid()
    && 2 !in v.usable && Abs(v.part, 2) in v.disk
    && (forall g :: 0 <= g < |geo.bitmaps| ==>
          && geo.bitmaps[g] !in v.usable && Abs(v.part, geo.bitmaps[g]) in v.disk
          && GetWord(v.disk[Abs(v.part, 2)], 8 * g) == geo.bitmaps[g])
    && (forall b :: b in v.usable ==> b < U32 && InGroup(geo, b))
    && (forall b :: InGroup(geo, b) ==> (Allocated(geo, v.part, v.disk, b) <==> b !in v.usable || b in v.owner))
  }

  /** The disk with the allocation bit of b switched. */
  function SwitchBit(geo: Geometry, part: nat, disk: Disk, b: nat, on: bool): Disk
    requires geo.Valid() && InGroup(geo, b) && Abs(part, geo.bitmaps[geo.Group(b)]) in disk
  {
    var at := Abs(part, geo.bitmaps[geo.Group(b)]);
    disk[at := SetBlockBit(disk[at], geo.Bit(b), on)]
  }

  /** An owned block is set in the bitmap that its descriptor points at. */
  lemma OwnBit(geo: Geometry, v: Volume, b: nat)
    requires BitmapsAgree(geo, v) && b in v.usable && b in v.owner
    ensures geo.Valid() && InGroup(geo, b)
    ensures geo.Group(b) == (b - geo.firstData) / geo.perGroup && geo.Bit(b) == (b - geo.firstData) % geo.perGroup
    ensures var m := geo.bitmaps[geo.Group(b)]; var at := Abs(v.part, m);
            && at in v.disk && Abs(v.part, 2) in v.disk && at != Abs(v.part, 2)
            && GetWord(v.disk[Abs(v.part, 2)], 8 * geo.Group(b)) == m
            && BlockBit(v.disk[at], geo.Bit(b))
            && SwitchBit(geo, v.part, v.disk, b, false) == v.disk[at := SetBlockBit(v.disk[at], geo.Bit(b), false)]
  {
    hide GetWord;
    assert Allocated(geo, v.part, v.disk, b);
  }

  /** What the bitmaps say of a block that files may use: bit (b - first) % per_group of the
      bitmap that word 8 * ((b - first) / per_group) of block 2 names is set exactly when the
      block is owned. */
  lemma BitOwned(geo: Geometry, v: Volume, b: nat)
    requires BitmapsAgree(geo, v) && b in v.usable
    ensures geo.firstData <= b && (b - geo.firstData) / geo.perGroup < 32 && v.part + 2 in v.disk
    ensures var bitmap := v.part + GetWord(v.disk[v.part + 2], 8 * ((b - geo.firstData) / geo.perGroup));
            && bitmap in v.disk
            && (BlockBit(v.disk[bitmap], (b - geo.firstData) % geo.perGroup) <==> b in v.owner)
  {
    hide GetWord, BlockBit;
    assert InGroup(geo, b);
    assert Allocated(geo, v.part, v.disk, b) <==> b in v.owner;
  }

  lemma SwitchBitAllocated(geo: Geometry, part: nat, disk: Disk, b: nat, on: bool, c: nat)
    requires geo.Valid() && InGroup(geo, b) && InGroup(geo, c)
    requires Abs(part, geo.bitmaps[geo.Group(b)]) in disk
    ensures Allocated(geo, part, SwitchBit(geo, part, disk, b, on), c) <==>
            if c == b then on else Allocated(geo, part, disk, c)
  {
    if geo.Group(b) == geo.Group(c) {
      if geo.Bit(b) == geo.Bit(c) {
        geo.PlaceInjective(b, c);
      }
    } else {
      assert geo.bitmaps[geo.Group(b)] != geo.bitmaps[geo.Group(c)];
    }
  }

  /** Writing blocks that files may use never disturbs a bitmap. */
  lemma UsableWrite(geo: Geometry, v: Volume, w: Volume)
    requires BitmapsAgree(geo, v)
    requires w.part == v.part && w.usable == v.usable && w.owner.Keys == v.owner.Keys
    requires v.disk.Keys <= w.disk.Keys
    requires forall m: nat :: m !in v.usable && Abs(v.part, m) in v.disk ==>
          w.disk[Abs(v.part, m)] == v.disk[Abs(v.part, m)]
    ensures BitmapsAgree(geo, w)
  {
    forall b | InGroup(geo, b)
      ensures Allocated(geo, w.part, w.disk, b) <==> b !in w.usable || b in w.owner
    {
      var m := geo.bitmaps[geo.Group(b)];
      assert w.disk[Abs(v.part, m)] == v.disk[Abs(v.part, m)];
      assert Allocated(geo, w.part, w.disk, b) <==> Allocated(geo, v.part, v.disk, b);
      assert b in w.owner <==> b in w.owner.Keys;
      assert b in v.owner <==> b in v.owner.Keys;
    }
  }
}
