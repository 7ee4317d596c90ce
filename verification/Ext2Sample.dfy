/** A volume of two small groups: the first is full, the second has a free block. */
module Ext2Sample {
  import opened Basics
  import opened Ext2Block
  import opened Ext2Tree
  import opened Ext2Bitmap
  import opened Ext2Grow
  import opened Ext2File
  import opened Ext2Space
  import opened Ext2Fs

  /** Blocks 1 to 4 and 5 to 8, with the bitmaps in blocks 3 and 7, and one inode a group. */
  const SMALL := Geometry(1, 4, 1, [3, 7])

  function Bitmap(x: Byte): (b: Block)
    ensures forall k :: 0 <= k < 8 ==> BlockBit(b, k) == TestBit(x, k)
  {
    ZeroBlock()[0 := x]
  }

  /** The bitmap blocks of the two group descriptors. */
  function Descriptors(): (b: Block)
    ensures GetWord(b, 0) == 3 && GetWord(b, 8) == 7
  {
    var one := SetWord(ZeroBlock(), 0, 3);
    SetWordGetWord(ZeroBlock(), 0, 3, 0);
    SetWordGetWord(one, 8, 7, 0);
    SetWordGetWord(one, 8, 7, 8);
    SetWord(one, 8, 7)
  }

  const ADDRS: Addrs := [4, 0, 0, 0, 0, 0, 0, 0, 0, 0, 0, 0, 0, 0, 0]

  /** Inode 1 is a file of one block, which is all that its group has for files. */
  function Small(): Volume {
    Volume(0, {4, 8}, SmallDisk(), map[1 := Inode(File, 1, 1024, ADDRS)], map[4 := (1, Direct(0))])
  }

  function SmallDisk(): Disk {
    map[2 := Descriptors(), 3 := Bitmap(15), 4 := ZeroBlock(), 7 := Bitmap(7), 8 := ZeroBlock()]
  }

  lemma Digits()
    ensures TestBit(15, 0) && TestBit(15, 1) && TestBit(15, 2) && TestBit(15, 3)
    ensures TestBit(7, 0) && TestBit(7, 1) && TestBit(7, 2) && !TestBit(7, 3)
  {
    assert TestBit(3, 1) && TestBit(7, 2) && TestBit(15, 3);
    assert !TestBit(0, 0) && !TestBit(1, 1) && !TestBit(3, 2) && !TestBit(7, 3);
  }

  lemma SmallTree(q: Pos)
    ensures Small().At(1, q) == if q == Direct(0) then 4 else 0
  {
    var v := Small();
    if !q.Top() {
      v.AtChild(1, q);
      if !q.Parent().Top() { v.AtChild(1, q.Parent()); }
    }
  }

  lemma SmallPlace(b: nat)
    ensures InGroup(SMALL, b) <==> 1 <= b <= 8
    ensures 1 <= b <= 4 ==> SMALL.Group(b) == 0 && SMALL.Bit(b) == b - 1
    ensures 5 <= b <= 8 ==> SMALL.Group(b) == 1 && SMALL.Bit(b) == b - 5
  {}

  lemma SmallAllocated(b: nat)
    requires 1 <= b <= 8
    ensures InGroup(SMALL, b) && (Allocated(SMALL, 0, SmallDisk(), b) <==> b != 8)
  {
    hide Bitmap, Descriptors, TestBit, BlockBit;
    Digits();
    SmallPlace(b);
    assert SmallDisk()[3] == Bitmap(15) && SmallDisk()[7] == Bitmap(7);
  }

  lemma SmallBitmaps()
    ensures BitmapsAgree(SMALL, Small())
  {
    hide Bitmap, Descriptors, InGroup, Allocated;
    var v := Small();
    assert GetWord(v.disk[2], 0) == 3 && GetWord(v.disk[2], 8) == 7;
    SmallPlace(4);
    SmallPlace(8);
    forall b | InGroup(SMALL, b) ensures Allocated(SMALL, v.part, v.disk, b) <==> b !in v.usable || b in v.owner {
      SmallPlace(b);
      SmallAllocated(b);
    }
  }

  lemma SmallGood()
    ensures Good(SMALL, Small()) && Files(Small()) && Homed(SMALL, Small())
  {
    hide Volume.At, SmallDisk, BitmapsAgree;
    var v := Small();
    SmallBitmaps();
    SmallPlace(4);
    forall q: Pos ensures v.At(1, q) == if q == Direct(0) then 4 else 0 { SmallTree(q); }
    SmallOwned();
    forall bn | 0 <= bn < MAXBN && bn != 0 ensures v.At(1, LeafPos(bn)) == 0 { LeafDiffer(0, bn); }
    assert MappedTo(v, 1, Blocks(1024));
  }

  lemma SmallOwned()
    requires forall q: Pos :: Small().At(1, q) == if q == Direct(0) then 4 else 0
    ensures Small().Owned()
  {
    hide Volume.At;
  }

  /** One byte more needs a block that the first group does not have, while block 8 of the
      second group is free. */
  lemma SmallShort()
    ensures Short(SMALL, Small(), 1, Blocks(1025))
    ensures 8 in Small().usable && 8 !in Small().owner && SMALL.Group(8) != SMALL.GroupOfInode(1)
  {
    hide Volume.At, Bitmap, Descriptors;
    var v := Small();
    SmallTree(Direct(1));
    SlotsHave(2, 1);
    assert Direct(1) in Need(v, 1, 2);
    assert FreeIn(SMALL, v, 1) == {};
  }

  /** A run that halts although a block is free. */
  method HaltsBesideFree() returns (halted: bool)
    ensures halted
  {
    hide Good, Files, Homed, Short, Small, SmallDisk;
    SmallGood();
    SmallShort();
    SmallIs();
    var fs := new FileSystem(0, SMALL, SmallDisk(), map[1 := Inode(File, 1, 1024, ADDRS)], [],
                             {4, 8}, {}, map[4 := (1, Direct(0))]);
    LimitWraps(0, 0);
    var r;
    halted, r := fs.Writei(1, [0], 1024);
  }

  lemma SmallIs()
    ensures Small() == Volume(0, {4, 8}, SmallDisk(), map[1 := Inode(File, 1, 1024, ADDRS)], map[4 := (1, Direct(0))])
  {}
}
