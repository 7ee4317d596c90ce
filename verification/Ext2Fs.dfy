/** ext2.c over its buffers: block allocation and freeing, the block map and truncation.
    `disk` is what bread returns; `held` are the buffers the running process has locked,
    and bread of one of those would wait for ever. Where the kernel panics a method
    returns failure and promises nothing about the state: the machine has stopped. */
module Ext2Fs {
  import opened Basics
  import opened Ext2Block
  import opened Ext2Tree
  import opened Ext2Bitmap
  import opened Ext2Grow
  import opened Ext2Trunc
  import opened Ext2File
  import opened Ext2Space

  /** What ext2fs_ialloc comes to: an inode, its panic, or a group that does not exist. */
  datatype InodeSearch = Found(ino: nat) | NoInodes | BeyondGroups

  datatype Place = FreeBit(g: nat, k: nat) | NoBit | Beyond

  class FileSystem {
    const part: nat            // first_partition_block
    const geo: Geometry
    ghost const usable: set<nat>
    var disk: Disk
    var inodes: map<nat, Inode>  // in-core inodes
    var itable: map<nat, Inode>  // inode slots of the on-disk inode table
    var held: set<nat>
    var ibitmaps: seq<Block>     // the inode bitmap of each group
    ghost const reserved: set<nat> // numbers marked in them without an inode
    ghost var owner: Owner

    ghost function Vol(): Volume
      reads this
    {
      Volume(part, usable, disk, inodes, owner)
    }

    ghost predicate Valid()
      reads this
    {
      Good(geo, Vol())
    }

    /** A mounted volume, nothing locked and every inode in memory as it is in the table. */
    constructor (part: nat, geo: Geometry, disk: Disk, inodes: map<nat, Inode>, ibitmaps: seq<Block>,
                 ghost usable: set<nat>, ghost reserved: set<nat>, ghost owner: Owner)
      ensures Vol() == Volume(part, usable, disk, inodes, owner) && this.geo == geo
      ensures held == {} && itable == inodes && this.ibitmaps == ibitmaps && this.reserved == reserved
    {
      this.part, this.geo, this.disk, this.inodes, itable, held := part, geo, disk, inodes, inodes, {};
      this.ibitmaps, this.usable, this.reserved, this.owner := ibitmaps, usable, reserved, owner;
    }

    // ---- buffers ----

    method Bread(at: nat) returns (data: Block)
      requires at in disk && at !in held
      modifies this`held
      ensures held == old(held) + {at}
      ensures data == disk[at]
    {
      held := held + {at};
      data := disk[at];
    }

    method Bwrite(at: nat, data: Block)
      requires at in disk && at in held
      modifies this`disk
      ensures disk == old(disk)[at := data]
    {
      disk := disk[at := data];
    }

    method Brelse(at: nat)
      requires at in held
      modifies this`held
      ensures held == old(held) - {at}
    {
      held := held - {at};
    }

    method Bzero(at: nat)
      requires at in disk && at !in held
      modifies this`disk, this`held
      ensures disk == old(disk)[at := ZeroBlock()] && held == old(held)
    {
      var bp := Bread(at);
      Bwrite(at, ZeroBlock());
      Brelse(at);
    }

    // ---- blocks ----

    /** ext2fs_balloc */
    method Balloc(ino: nat) returns (ok: bool, b: nat)
      requires Valid() && CanAlloc(geo, Vol(), held) && ino in inodes
      modifies this`disk, this`held
      ensures held == old(held)
      ensures ok ==> Taken(geo, old(Vol()), disk, b) && geo.Group(b) == geo.GroupOfInode(ino)
      ensures !ok ==> disk == old(disk) && Full(geo, Vol(), ino)
    {
      var gno := geo.GroupOfInode(ino);
      var bp1 := Bread(Abs(part, 2));
      var bitmapBlock := GetWord(bp1, 8 * gno);
      Brelse(Abs(part, 2));
      assert bitmapBlock == geo.bitmaps[gno];
      var at := Abs(part, bitmapBlock);
      var bp2 := Bread(at);
      var fbit, after := GetFreeBit(bp2, geo.perGroup);
      if fbit != -1 {
        Bwrite(at, after);
        Brelse(at);
        b := geo.BlockOf(gno, fbit);
        geo.BlockPlace(gno, fbit);
        assert InGroup(geo, b) && !Allocated(geo, part, old(disk), b);
        assert disk == SwitchBit(geo, part, old(disk), b, true);
        SwitchedAt(geo, old(Vol()), b, true);
        Bzero(Abs(part, b));
        ZeroedAt(geo, old(Vol()), b);
        return true, b;
      }
      Brelse(at);
      return false, 0;
    }

    /** ext2fs_bfree: the block's bit is set, so the "already free" panic is not reached. */
    method Bfree(b: nat)
      requires BitmapsAgree(geo, Vol()) && CanFree(geo, Vol(), held)
      requires b in usable && b in owner
      modifies this`disk, this`held, this`owner
      ensures held == old(held)
      ensures BitmapsAgree(geo, Vol()) && Freed(old(Vol()), Vol(), b)
    {
      hide SwitchBit, GetWord, BitmapsAgree;
      OwnBit(geo, Vol(), b);
      var gno := (b - geo.firstData) / geo.perGroup;
      var offset := (b - geo.firstData) % geo.perGroup;
      var bp1 := Bread(Abs(part, 2));
      var bitmapBlock := GetWord(bp1, 8 * gno);
      var at := Abs(part, bitmapBlock);
      var bp2 := Bread(at);
      assert TestBit(bp2[offset / 8], offset % 8);
      Bwrite(at, SetBlockBit(bp2, offset, false));
      Brelse(at);
      Brelse(Abs(part, 2));
      owner := owner - {b};
      SwitchedAt(geo, old(Vol()), b, false);
      SwitchedBitmaps(geo, old(Vol()), disk, b, false, owner);
    }

    // ---- the block map ----

    lemma PaidHere(ino: nat, n: nat)
      requires Valid() && ino in inodes
      ensures Paid(geo, Vol(), Vol(), ino, n)
    {}

    /** The branch `if ((addr = ad->addrs[k]) == 0)` of ext2fs_bmap, for the slot of p, which
        is one of those the first n blocks need. */
    method AddrSlot(ino: nat, p: Pos, ghost n: nat) returns (ok: bool, addr: Word)
      requires Valid() && held == {} && ino in inodes && p.Top() && p in Slots(n)
      modifies this`disk, this`held, this`inodes, this`owner
      ensures held == {} && inodes.Keys == old(inodes).Keys
      ensures ok ==> Valid() && Grew(old(Vol()), Vol(), ino, p) && addr == Vol().At(ino, p) != 0
      ensures old(Vol()).At(ino, p) != 0 ==> ok
      ensures ok ==> Paid(geo, old(Vol()), Vol(), ino, n)
      ensures !ok ==> Full(geo, Vol(), ino) && Short(geo, old(Vol()), ino, n)
    {
      hide Good, Grew, Taken, Full, Slots, Short, Paid;
      addr := inodes[ino].addrs[p.Slot()];
      ok := true;
      if addr == 0 {
        ghost var v := Vol();
        var b;
        ok, b := Balloc(ino);
        if ok {
          AdoptGood(geo, v, disk, ino, p, b);
          AdoptPaid(geo, v, disk, ino, p, b, n);
          ghost var w := v.Adopt(disk, ino, p, b);
          addr := b;
          inodes := inodes[ino := inodes[ino].(addrs := inodes[ino].addrs[p.Slot() := addr])];
          owner := owner[b := (ino, p)];
          assert Vol() == w;
        } else {
          FullShort(geo, v, ino, p, n);
        }
      } else {
        AlreadyFilled(geo, Vol(), ino, p);
        PaidHere(ino, n);
      }
    }

    /** The word of index block `index` that holds slot p: read it, and allocate and write
        it back when it is empty. */
    method IndexSlot(ino: nat, p: Pos, index: Word, ghost n: nat) returns (ok: bool, entry: Word)
      requires Valid() && ino in inodes && !p.Top() && p in Slots(n)
      requires held == {} && index == Vol().At(ino, p.Parent()) != 0
      modifies this`disk, this`held, this`owner
      ensures held == {}
      ensures ok ==> Valid() && Grew(old(Vol()), Vol(), ino, p) && entry == Vol().At(ino, p) != 0
      ensures old(Vol()).At(ino, p) != 0 ==> ok
      ensures ok ==> Paid(geo, old(Vol()), Vol(), ino, n)
      ensures !ok ==> Full(geo, Vol(), ino) && Short(geo, old(Vol()), ino, n)
    {
      hide Good, Grew, Taken, Full, CanAlloc, Volume.Vacant, Slots, Short, Paid;
      ghost var v := Vol();
      OpenIndex(geo, v, ino, p);
      var at := Abs(part, index);
      var a := Bread(at);
      entry := GetWord(a, p.Index());
      ok := true;
      if entry == 0 {
        var b;
        ok, b := Balloc(ino);
        if ok {
          AdoptGood(geo, v, disk, ino, p, b);
          AdoptPaid(geo, v, disk, ino, p, b, n);
          AdoptInIndex(geo, v, disk, ino, p, b);
          ghost var w := v.Adopt(disk, ino, p, b);
          entry := b;
          Bwrite(at, SetWord(a, p.Index(), entry));
          owner := owner[b := (ino, p)];
          assert Vol() == w;
        } else {
          FullShort(geo, v, ino, p, n);
        }
      } else {
        PaidHere(ino, n);
      }
      Brelse(at);
    }

    /** ext2fs_bmap for the block numbers ext2fs_writei and ext2fs_readi can ask for. */
    method Bmap(ino: nat, bn: nat, ghost total: nat) returns (ok: bool, block: nat)
      requires Valid() && held == {} && ino in inodes && bn < MAXBN && bn < total
      modifies this`disk, this`held, this`inodes, this`owner
      ensures held == {} && inodes.Keys == old(inodes).Keys
      ensures ok ==> Valid() && Grew(old(Vol()), Vol(), ino, LeafPos(bn))
      ensures ok ==> block == Abs(part, Vol().At(ino, LeafPos(bn)))
      ensures ok && bn < 12 ==> block == part + inodes[ino].addrs[bn]
      ensures ok && 12 <= bn < 268 ==>
                part + inodes[ino].addrs[12] in disk &&
                block == part + GetWord(disk[part + inodes[ino].addrs[12]], bn - 12)
      ensures ok && 268 <= bn ==>
                var root := part + inodes[ino].addrs[13];
                && root in disk && part + GetWord(disk[root], (bn - 268) / 256) in disk
                && block == part + GetWord(disk[part + GetWord(disk[root], (bn - 268) / 256)], (bn - 268) % 256)
      ensures old(Vol()).At(ino, LeafPos(bn)) != 0 ==> ok && Vol() == old(Vol())
      ensures ok ==> Paid(geo, old(Vol()), Vol(), ino, total)
      ensures !ok ==> Full(geo, Vol(), ino) && Short(geo, old(Vol()), ino, total)
    {
      hide Good, Grew, Full, Volume.At, Slots, Short, Paid, GetWord, LittleEndian;
      ghost var u := Vol();
      SlotsHave(total, bn);
      if bn < NDIR {
        var addr;
        ok, addr := AddrSlot(ino, Direct(bn), total);
        if ok {
          GrewIdle(u, Vol(), ino, Direct(bn));
          Vol().DirectWords(ino, bn);
        }
        return ok, Abs(part, addr);
      }
      var n := bn - NDIR;
      if n < INDIRECT {
        u.ParentFilled(ino, IndLeaf(n));
        var addr, entry;
        ok, addr := AddrSlot(ino, IndRoot, total);
        if !ok { return false, 0; }
        ghost var v := Vol();
        GrewIdle(u, v, ino, IndRoot);
        ok, entry := IndexSlot(ino, IndLeaf(n), addr, total);
        PaidShort(geo, u, v, ino, total);
        if !ok { return false, 0; }
        PaidTrans(geo, u, v, Vol(), ino, total);
        GrewTrans(u, v, Vol(), ino, IndRoot, IndLeaf(n));
        GrewIdle(u, Vol(), ino, IndLeaf(n));
        Vol().SingleWords(ino, bn);
        return true, Abs(part, entry);
      }
      block := 0;
      ok, block := BmapDouble(ino, bn, total);
      if ok { GrewFilled(u, Vol(), ino, LeafPos(bn)); Vol().DoubleWords(ino, bn); }
    }

    /** The branch `bn < EXT2_DINDIRECT` of ext2fs_bmap. */
    method BmapDouble(ino: nat, bn: nat, ghost total: nat) returns (ok: bool, block: nat)
      requires Valid() && held == {} && ino in inodes && NDIR + INDIRECT <= bn < MAXBN && bn < total
      modifies this`disk, this`held, this`inodes, this`owner
      ensures held == {} && inodes.Keys == old(inodes).Keys
      ensures ok ==> Valid() && Grew(old(Vol()), Vol(), ino, LeafPos(bn))
      ensures ok ==> block == Abs(part, Vol().At(ino, LeafPos(bn)))
      ensures old(Vol()).At(ino, LeafPos(bn)) != 0 ==> ok && Vol() == old(Vol())
      ensures ok ==> Paid(geo, old(Vol()), Vol(), ino, total)
      ensures !ok ==> Full(geo, Vol(), ino) && Short(geo, old(Vol()), ino, total)
    {
      hide Good, Grew, Full, Volume.At, Slots, Short, Paid;
      ghost var u := Vol();
      SlotsHave(total, bn);
      var n := bn - NDIR - INDIRECT;
      var addr, entry, leaf;
      var i, j := n / INDIRECT, n % INDIRECT;
      u.ParentFilled(ino, DindMid(i));
      u.ParentFilled(ino, DindLeaf(i, j));
      ok, addr := AddrSlot(ino, DindRoot, total);
      if !ok { return false, 0; }
      ghost var v := Vol();
      GrewIdle(u, v, ino, DindRoot);
      ok, entry := IndexSlot(ino, DindMid(i), addr, total);
      PaidShort(geo, u, v, ino, total);
      if !ok { return false, 0; }
      ghost var w := Vol();
      GrewTrans(u, v, w, ino, DindRoot, DindMid(i));
      GrewIdle(u, w, ino, DindMid(i));
      PaidTrans(geo, u, v, w, ino, total);
      ok, leaf := IndexSlot(ino, DindLeaf(i, j), entry, total);
      PaidShort(geo, u, w, ino, total);
      if !ok { return false, 0; }
      PaidTrans(geo, u, w, Vol(), ino, total);
      GrewTrans(u, w, Vol(), ino, DindMid(i), DindLeaf(i, j));
      GrewIdle(u, Vol(), ino, DindLeaf(i, j));
      return true, Abs(part, leaf);
    }

    // ---- truncation ----

    /** Free what an index block lists and then the block itself. Clearing a[i] stays in the
        buffer: the block is not written back before it is freed. */
    method FreeList(ghost v0: Volume, ino: nat, ghost p: Pos, index: Word)
      requires IsList(p) && TruncAt(geo, v0, Vol(), ino, Rank(p) - 256)
      requires index == v0.At(ino, p) != 0
      requires CanFree(geo, Vol(), held) && Abs(part, index) !in held
      modifies this`disk, this`held, this`owner
      ensures held == old(held) && CanFree(geo, Vol(), held)
      ensures TruncAt(geo, v0, Vol(), ino, Rank(p) + 1)
    {
      hide TruncAt, CanFree, Freed, BitmapsAgree, Lists, Cleared, GetWord, SetWord, Volume.At;
      OpenList(geo, v0, Vol(), ino, Rank(p) - 256, p, held);
      var at := Abs(part, index);
      var a := Bread(at);
      FreeWords(v0, ino, p, a);
      Brelse(at);
      CanFreeLess(geo, Vol(), held + {at}, held);
      FreeNext(v0, ino, p, index);
    }

    /** Its loop over the words of the index block. */
    method FreeWords(ghost v0: Volume, ino: nat, ghost p: Pos, a0: Block)
      requires IsList(p) && TruncAt(geo, v0, Vol(), ino, Rank(p) - 256)
      requires Lists(v0, ino, p, a0, 0) && CanFree(geo, Vol(), held)
      modifies this`disk, this`held, this`owner
      ensures held == old(held) && CanFree(geo, Vol(), held)
      ensures TruncAt(geo, v0, Vol(), ino, Rank(p))
    {
      hide TruncAt, CanFree, Lists;
      var a, i := a0, 0;
      while i < WORDS
        invariant 0 <= i <= WORDS
        invariant held == old(held) && CanFree(geo, Vol(), held)
        invariant TruncAt(geo, v0, Vol(), ino, Rank(p) - 256 + i)
        invariant Lists(v0, ino, p, a, i)
      {
        a := FreeWord(v0, ino, p, a, i);
        i := i + 1;
      }
    }

    /** One turn of it. */
    method FreeWord(ghost v0: Volume, ino: nat, ghost p: Pos, a: Block, i: nat) returns (a': Block)
      requires i < WORDS && IsList(p) && TruncAt(geo, v0, Vol(), ino, Rank(p) - 256 + i)
      requires Lists(v0, ino, p, a, i) && CanFree(geo, Vol(), held)
      modifies this`disk, this`held, this`owner
      ensures held == old(held) && CanFree(geo, Vol(), held)
      ensures TruncAt(geo, v0, Vol(), ino, Rank(p) - 256 + i + 1) && Lists(v0, ino, p, a', i + 1)
    {
      hide TruncAt, CanFree, Freed, BitmapsAgree, Lists, Cleared, GetWord, SetWord, Volume.At;
      ClearWord(a, i);
      ClearListed(v0, ino, p, a, SetWord(a, i, 0), i);
      a' := a;
      if GetWord(a, i) != 0 {
        FreeNext(v0, ino, Child(p, i), GetWord(a, i));
        a' := SetWord(a, i, 0);
      } else {
        SkipOne(geo, v0, Vol(), ino, Child(p, i));
      }
    }

    method FreeNext(ghost v0: Volume, ino: nat, ghost p: Pos, b: Word)
      requires TruncAt(geo, v0, Vol(), ino, Rank(p)) && b == v0.At(ino, p) != 0
      requires CanFree(geo, Vol(), held)
      modifies this`disk, this`held, this`owner
      ensures held == old(held)
      ensures TruncAt(geo, v0, Vol(), ino, Rank(p) + 1)
      ensures CanFree(geo, Vol(), held)
    {
      ghost var v := Vol();
      StillThere(geo, v0, v, ino, Rank(p), p);
      Bfree(b);
      StepFreed(geo, v0, v, Vol(), ino, p);
    }

    /** ext2fs_iupdate: the in-core inode is copied into its slot of the inode table. */
    method Iupdate(ino: nat)
      requires ino in inodes
      modifies this`itable
      ensures itable == old(itable)[ino := inodes[ino]]
    {
      itable := itable[ino := inodes[ino]];
    }

    /** ad->addrs[k] = 0 */
    method ClearSlot(ghost v0: Volume, ino: nat, k: nat, ghost rank: nat)
      requires TruncAt(geo, v0, Vol(), ino, rank) && ino in inodes && k < 15
      modifies this`inodes
      ensures ino in inodes && inodes == old(inodes)[ino := old(inodes)[ino].(addrs := old(inodes)[ino].addrs[k := 0])]
      ensures TruncAt(geo, v0, Vol(), ino, rank)
    {
      hide TruncAt;
      ghost var v := Vol();
      var ip := inodes[ino];
      ip := ip.(addrs := ip.addrs[k := 0]);
      inodes := inodes[ino := ip];
      StepAddrs(geo, v0, v, ino, rank, ip);
    }

    /** The pointers of ino below slot n are cleared, the others are those of v0. */
    ghost predicate ClearedTo(v0: Volume, ino: nat, n: nat)
      reads this
    {
      && ino in v0.inodes && ino in inodes
      && (forall k :: 0 <= k < 15 ==> inodes[ino].addrs[k] == if k < n then 0 else v0.inodes[ino].addrs[k])
      && inodes[ino] == v0.inodes[ino].(addrs := inodes[ino].addrs)
    }

    /** The loop over the direct blocks. */
    method TruncDirect(ghost v0: Volume, ino: nat)
      requires TruncAt(geo, v0, Vol(), ino, 0) && ClearedTo(v0, ino, 0)
      requires held == {} && CanFree(geo, Vol(), held)
      modifies this`disk, this`held, this`owner, this`inodes
      ensures held == {} && CanFree(geo, Vol(), held)
      ensures TruncAt(geo, v0, Vol(), ino, 12) && ClearedTo(v0, ino, 12)
    {
      hide TruncAt, CanFree;
      var i := 0;
      while i < NDIR
        invariant 0 <= i <= NDIR
        invariant held == {} && CanFree(geo, Vol(), held)
        invariant TruncAt(geo, v0, Vol(), ino, i) && ClearedTo(v0, ino, i)
      {
        if inodes[ino].addrs[i] != 0 {
          FreeNext(v0, ino, Direct(i), inodes[ino].addrs[i]);
          ghost var v := Vol();
          ClearSlot(v0, ino, i, i + 1);
          CanFreeKept(geo, v, Vol(), held);
        } else {
          SkipOne(geo, v0, Vol(), ino, Direct(i));
        }
        i := i + 1;
      }
    }

    /** `if (ad->addrs[EXT2_IND_BLOCK])` */
    method TruncIndirect(ghost v0: Volume, ino: nat)
      requires TruncAt(geo, v0, Vol(), ino, 12) && ClearedTo(v0, ino, 12)
      requires held == {} && CanFree(geo, Vol(), held)
      modifies this`disk, this`held, this`owner, this`inodes
      ensures held == {} && CanFree(geo, Vol(), held)
      ensures TruncAt(geo, v0, Vol(), ino, 269) && ClearedTo(v0, ino, 13)
    {
      hide TruncAt, CanFree;
      if inodes[ino].addrs[IND] != 0 {
        FreeList(v0, ino, IndRoot, inodes[ino].addrs[IND]);
        ghost var v := Vol();
        ClearSlot(v0, ino, IND, 269);
        CanFreeKept(geo, v, Vol(), held);
      } else {
        SkipList(geo, v0, Vol(), ino, IndRoot);
      }
    }

    /** `if (ad->addrs[EXT2_DIND_BLOCK])` */
    method TruncDouble(ghost v0: Volume, ino: nat)
      requires TruncAt(geo, v0, Vol(), ino, 269) && ClearedTo(v0, ino, 13)
      requires held == {} && CanFree(geo, Vol(), held)
      modifies this`disk, this`held, this`owner, this`inodes
      ensures held == {}
      ensures TruncAt(geo, v0, Vol(), ino, LAST) && ClearedTo(v0, ino, 14)
    {
      hide TruncAt, CanFree, Mids, Cleared, GetWord, SetWord;
      var root := inodes[ino].addrs[DIND];
      if root != 0 {
        OpenDouble(geo, v0, Vol(), ino, held);
        var at := Abs(part, root);
        var a := Bread(at);
        var i := 0;
        while i < WORDS
          invariant 0 <= i <= WORDS
          invariant held == {at} && CanFree(geo, Vol(), held)
          invariant TruncAt(geo, v0, Vol(), ino, 269 + 257 * i) && ClearedTo(v0, ino, 13)
          invariant Mids(v0, ino, a, i)
        {
          ClearWord(a, i);
          ClearMid(v0, ino, a, SetWord(a, i, 0), i);
          if GetWord(a, i) != 0 {
            OtherIndex(geo, v0, Vol(), ino, DindMid(i), DindRoot, Rank(DindMid(i)) - 256);
            FreeList(v0, ino, DindMid(i), GetWord(a, i));
            a := SetWord(a, i, 0);
          } else {
            SkipList(geo, v0, Vol(), ino, DindMid(i));
          }
          i := i + 1;
        }
        Brelse(at);
        CanFreeLess(geo, Vol(), {at}, held);
        FreeNext(v0, ino, DindRoot, root);
        ClearSlot(v0, ino, DIND, LAST);
      } else {
        SkipDouble(geo, v0, Vol(), ino);
      }
    }

    // ---- file contents ----

    /** Between operations: the block layer is consistent, every file has exactly the
        blocks its size needs, and the inode table agrees with the in-core inodes. */
    ghost predicate Ready()
      reads this
    {
      Valid() && Files(Vol()) && itable == inodes && held == {}
    }

    /** ext2fs_readi on a file or directory; ok is false where the source returns -1. */
    method Readi(ino: nat, off: Word, n: Word) returns (ok: bool, dst: seq<Byte>)
      requires Ready() && ino in inodes
      modifies this`disk, this`held, this`inodes, this`owner
      ensures Ready() && Vol() == old(Vol())
      ensures ok <==> off <= inodes[ino].size && off + n < U32
      ensures ok ==> dst == Content(Vol(), ino)[off..Min(off + n, inodes[ino].size)]
    {
      hide Good, Grew, Full, Files, Volume.At, Contents, Content, LeafPos, Short, Paid;
      ghost var v := Vol();
      var size := inodes[ino].size;
      if off > size || (off + n) % U32 < off {
        return false, [];
      }
      var count: nat := n;
      if off + n > size {
        count := size - off;
      }
      dst := [];
      var tot := 0;
      while tot < count
        invariant 0 <= tot <= count && off + count <= size
        invariant Vol() == v && held == {}
        invariant dst == Content(v, ino)[off..off + tot]
      {
        var chunk := ReadBlock(ino, off + tot, count - tot);
        SliceJoins(Content(v, ino), off, off + tot, off + tot + |chunk|);
        dst := dst + chunk;
        tot := tot + |chunk|;
      }
      return true, dst;
    }

    /** One turn of its loop: what is left of the read, as far as it lies in one block. */
    method ReadBlock(ino: nat, x: nat, rest: nat) returns (chunk: seq<Byte>)
      requires Ready() && ino in inodes && 0 < rest && x + rest <= inodes[ino].size
      modifies this`disk, this`held, this`inodes, this`owner
      ensures Vol() == old(Vol()) && held == {}
      ensures 0 < |chunk| == Min(rest, BSIZE - x % BSIZE)
      ensures chunk == Content(Vol(), ino)[x..x + |chunk|]
    {
      hide Good, Grew, Full, Files, Volume.At, Contents, Content, LeafPos, Short, Paid;
      ghost var v := Vol();
      ReadMapped(v, ino, x);
      var mapped, block := Bmap(ino, x / BSIZE, x / BSIZE + 1);
      MappedBlock(geo, v, ino, x / BSIZE);
      var bp := Bread(block);
      var m := Min(rest, BSIZE - x % BSIZE);
      ReadChunk(v, ino, x, m);
      chunk := bp[x % BSIZE..x % BSIZE + m];
      Brelse(block);
    }

    /** ext2fs_writei on a file or directory: -1 is refused, otherwise the count. When the
        group runs out of blocks the kernel panics and `halted` is set: exactly for the
        accepted writes that need more new blocks than the group has free. */
    method Writei(ino: nat, src: seq<Byte>, off: Word) returns (halted: bool, r: int)
      requires Ready() && ino in inodes && |src| < U32
      modifies this`disk, this`held, this`inodes, this`owner, this`itable
      ensures halted <==>
              && off <= old(inodes)[ino].size && off + |src| <= LIMIT
              && Short(geo, old(Vol()), ino, Blocks(off + |src|))
      ensures halted ==> Full(geo, Vol(), ino)
      ensures off + |src| <= old(inodes)[ino].size ==> !halted
      ensures !halted && Homed(geo, old(Vol())) ==> Homed(geo, Vol())
      ensures !halted ==> Ready() && inodes.Keys == old(inodes).Keys
      ensures !halted ==> (r == -1 || r == |src|)
      ensures !halted ==> (r == -1 <==> off > old(inodes)[ino].size || off + |src| > LIMIT)
      ensures !halted && r == -1 ==> Vol() == old(Vol())
      ensures !halted && r != -1 ==> Written(old(Vol()), Vol(), ino, off, src)
    {
      hide Good, Files, Content, Written, Short, Homed, Full;
      var n := |src|;
      if off > inodes[ino].size || (off + n) % U32 < off {
        return false, -1;
      }
      if (off + n) % U32 > LIMIT {
        return false, -1;
      }
      LimitWraps(off, n);
      halted := WriteAll(ino, src, off);
      r := n;
    }

    /** What follows once ext2fs_writei has accepted a write. */
    method WriteAll(ino: nat, src: seq<Byte>, off: nat) returns (halted: bool)
      requires Ready() && ino in inodes && off <= inodes[ino].size && off + |src| <= MAXBN * 1024
      modifies this`disk, this`held, this`inodes, this`owner, this`itable
      ensures halted <==> Short(geo, old(Vol()), ino, Blocks(off + |src|))
      ensures halted ==> Full(geo, Vol(), ino)
      ensures off + |src| <= old(inodes)[ino].size ==> !halted
      ensures !halted ==> Ready() && inodes.Keys == old(inodes).Keys && Written(old(Vol()), Vol(), ino, off, src)
      ensures !halted && Homed(geo, old(Vol())) ==> Homed(geo, Vol())
    {
      hide Good, Grew, Full, Files, Volume.At, Contents, Content, LeafPos, Writing, Written, Short, Paid, Homed, Blocks;
      ghost var v0 := Vol();
      var n := |src|;
      ghost var mapped: nat := Blocks(inodes[ino].size);
      ghost var total := Blocks(off + n);
      BeginWrite(v0, ino, off, src);
      BlocksCover(inodes[ino].size, off, n);
      PaidHere(ino, total);
      var tot := 0;
      while tot < n
        invariant 0 <= tot <= n
        invariant held == {} && Valid() && ino in inodes && itable == v0.inodes
        invariant inodes.Keys == v0.inodes.Keys && inodes[ino].size == v0.inodes[ino].size
        invariant Writing(v0, Vol(), ino, off, src, tot, mapped)
        invariant mapped == Max(Blocks(v0.inodes[ino].size), Blocks(off + tot))
        invariant mapped == Blocks(v0.inodes[ino].size) ==> inodes == v0.inodes
        invariant Paid(geo, v0, Vol(), ino, total)
      {
        BlocksCover(v0.inodes[ino].size, off, tot);
        InsideFits(v0.inodes[ino].size, off + tot, off + n);
        var ok, m := WriteBlock(v0, ino, src, off, tot, mapped);
        if !ok { return true; }
        BlocksAfter(off + tot, m);
        mapped := Max(mapped, (off + tot) / 1024 + 1);
        tot := tot + m;
      }
      WritingEnough(geo, v0, Vol(), ino, off, src, mapped);
      PaidShort(geo, v0, Vol(), ino, total);
      PaidHomed(geo, v0, Vol(), ino, total);
      EndWrite(v0, ino, src, off, mapped, off + n);
      halted := false;
    }

    /** One turn of the loop of ext2fs_writei: the bytes that fall in one block. */
    method WriteBlock(ghost v0: Volume, ino: nat, src: seq<Byte>, off: nat, tot: nat, ghost mapped: nat)
      returns (ok: bool, m: nat)
      requires Valid() && held == {} && ino in inodes && ino in v0.inodes
      requires tot < |src| && off + |src| <= MAXBN * 1024
      requires Writing(v0, Vol(), ino, off, src, tot, mapped)
      requires v0.inodes[ino].size <= mapped * 1024 && mapped <= MAXBN
      requires Paid(geo, v0, Vol(), ino, Blocks(off + |src|))
      modifies this`disk, this`held, this`inodes, this`owner
      ensures ok ==> Paid(geo, v0, Vol(), ino, Blocks(off + |src|))
      ensures !ok ==> Full(geo, Vol(), ino) && Short(geo, v0, ino, Blocks(off + |src|))
      ensures ok ==> Valid() && held == {} && m == Min(|src| - tot, 1024 - (off + tot) % 1024)
      ensures ok ==> Writing(v0, Vol(), ino, off, src, tot + m, Max(mapped, (off + tot) / 1024 + 1))
      ensures ok ==> SameShape(old(Vol()), Vol(), ino)
      ensures (off + tot) / 1024 < mapped ==> ok && inodes == old(inodes)
    {
      hide Good, Grew, Full, Files, Volume.At, Contents, Content, LeafPos, Patch, Writing, Short, Paid;
      var x := off + tot;
      ghost var v := Vol();
      ghost var total := Blocks(off + |src|);
      if x / BSIZE < mapped { WritingMapped(v0, v, ino, off, src, tot, mapped, x / BSIZE); }
      var block;
      ok, block := Bmap(ino, x / BSIZE, total);
      m := 0;
      PaidShort(geo, v0, v, ino, total);
      if ok {
        ghost var w := Vol();
        PaidTrans(geo, v0, v, w, ino, total);
        WriteGrew(v0, v, w, ino, off, src, tot, mapped);
        GrewShape(v, w, ino, LeafPos(x / BSIZE));
        WritingMapped(v0, w, ino, off, src, tot, Max(mapped, x / BSIZE + 1), x / BSIZE);
        MappedBlock(geo, w, ino, x / BSIZE);
        var bp := Bread(block);
        m := Min(|src| - tot, BSIZE - x % BSIZE);
        Bwrite(block, Patch(bp, x % BSIZE, src[tot..tot + m]));
        Brelse(block);
        WriteChunk(geo, v0, w, Vol(), ino, off, src, tot, Max(mapped, x / BSIZE + 1), m);
        DataPaid(geo, w, ino, LeafPos(x / BSIZE), disk[block], total);
        PaidTrans(geo, v0, w, Vol(), ino, total);
      }
    }

    /** The end of ext2fs_writei: a longer file gets its new size and is written to the
        inode table. A write inside the file moved no block, so the table is up to date. */
    method EndWrite(ghost v0: Volume, ino: nat, src: seq<Byte>, ghost off: nat, ghost mapped: nat, end: nat)
      requires Valid() && held == {} && ino in inodes && Files(v0) && itable == v0.inodes
      requires Writing(v0, Vol(), ino, off, src, |src|, mapped) && end == off + |src| <= MAXBN * 1024
      requires off <= v0.inodes[ino].size <= MAXBN * 1024
      requires inodes[ino].size == v0.inodes[ino].size && mapped == Max(Blocks(v0.inodes[ino].size), Blocks(end))
      requires mapped == Blocks(v0.inodes[ino].size) ==> inodes == v0.inodes
      modifies this`inodes, this`itable
      ensures Ready() && inodes.Keys == old(inodes).Keys && Written(v0, Vol(), ino, off, src)
      ensures Homed(geo, old(Vol())) ==> Homed(geo, Vol())
    {
      hide Good, Files, Volume.At, Contents, Content, LeafPos, Writing, Written;
      ghost var v := Vol();
      if |src| > 0 && end > inodes[ino].size {
        inodes := inodes[ino := inodes[ino].(size := end)];
        FinishWrite(geo, v0, v, ino, off, src, mapped, inodes[ino]);
        Iupdate(ino);
      } else {
        FinishWrite(geo, v0, v, ino, off, src, mapped, inodes[ino]);
        assert v.inodes[ino := inodes[ino]] == inodes;
      }
    }

    /** ext2fs_itrunc */
    method Itrunc(ino: nat)
      requires Ready() && ino in inodes
      modifies this`disk, this`held, this`owner, this`inodes, this`itable
      ensures Ready() && Emptied(old(Vol()), Vol(), ino)
      ensures Homed(geo, old(Vol())) ==> Homed(geo, Vol())
      ensures inodes[ino] == old(inodes)[ino].(size := 0, addrs := NOADDRS)
      ensures forall j :: j in inodes && j != ino ==> Content(Vol(), j) == Content(old(Vol()), j)
    {
      hide Good, TruncAt, CanFree, Emptied, Files, Content, Homed;
      ghost var v0 := Vol();
      BeginTrunc(geo, v0, ino);
      TruncDirect(v0, ino);
      TruncIndirect(v0, ino);
      TruncDouble(v0, ino);
      EndTrunc(v0, ino);
    }

    /** ip->size = 0; iupdate(ip) */
    method EndTrunc(ghost v0: Volume, ino: nat)
      requires TruncAt(geo, v0, Vol(), ino, LAST) && ClearedTo(v0, ino, 14) && held == {}
      requires Files(v0) && itable == v0.inodes
      modifies this`inodes, this`itable
      ensures Ready() && Emptied(v0, Vol(), ino)
      ensures Homed(geo, v0) ==> Homed(geo, Vol())
      ensures inodes[ino] == v0.inodes[ino].(size := 0, addrs := NOADDRS)
      ensures forall j :: j in inodes && j != ino ==> Content(Vol(), j) == Content(v0, j)
    {
      hide Good, TruncAt, Emptied, Files, Content, Homed;
      ghost var v := Vol();
      AllCleared(v0, ino);
      TruncAtGood(geo, v0, v, ino, LAST);
      FinishTrunc(geo, v0, v, ino);
      NoAddrs(inodes[ino].addrs);
      inodes := inodes[ino := inodes[ino].(size := 0)];
      EmptiedSize(geo, v0, v, ino, inodes[ino]);
      EmptiedFiles(v0, Vol(), ino);
      EmptiedOthers(v0, Vol(), ino);
      EmptiedHomed(geo, v0, Vol(), ino);
      EmptiedTable(v0, Vol(), ino);
      Iupdate(ino);
    }

    lemma AllCleared(v0: Volume, ino: nat)
      requires ClearedTo(v0, ino, 14)
      ensures ino in inodes && forall k :: 0 <= k < 15 ==> inodes[ino].addrs[k] == 0
    {}

    /** The set bits of the inode bitmaps are the inodes in use and the reserved ones. */
    ghost predicate InodesAgree()
      reads this
    {
      && |ibitmaps| == |geo.bitmaps| && geo.inodesPerGroup <= 8192
      && (forall ino :: ino in reserved ==> ino !in inodes)
      && forall g, k :: 0 <= g < |ibitmaps| && 0 <= k < geo.inodesPerGroup ==>
           (BlockBit(ibitmaps[g], k) <==> geo.InodeOf(g, k) in inodes || geo.InodeOf(g, k) in reserved)
    }

    /** The bit of an inode is bit (ino - 1) % inodes_per_group of the bitmap of its group. */
    lemma InodeBit(ino: nat)
      requires InodesAgree() && 0 < ino && 1 <= geo.inodesPerGroup && (ino - 1) / geo.inodesPerGroup < |ibitmaps|
      ensures BlockBit(ibitmaps[(ino - 1) / geo.inodesPerGroup], (ino - 1) % geo.inodesPerGroup) <==>
              ino in inodes || ino in reserved
    {
      hide BlockBit;
      geo.InodeBack(ino);
    }

    /** Every inode number is in use or reserved. */
    ghost predicate NoFreeInode()
      reads this
    {
      forall g, k :: 0 <= g < |geo.bitmaps| && 0 <= k < geo.inodesPerGroup ==>
        geo.InodeOf(g, k) in inodes || geo.InodeOf(g, k) in reserved
    }

    /** ext2fs_ialloc: the lowest free inode number. When there is none it panics, unless its
        loop goes on beyond the last group, where it would take the bytes behind the
        descriptors for one; the model ends there. */
    method Ialloc(kind: Kind, blocksCount: nat) returns (r: InodeSearch)
      requires Ready() && InodesAgree()
      requires geo.firstData <= blocksCount && |geo.bitmaps| == geo.Groups(blocksCount)
      modifies this`inodes, this`itable, this`ibitmaps
      ensures InodesAgree()
      ensures r.Found? <==> !old(NoFreeInode())
      ensures r.BeyondGroups? <==> old(NoFreeInode()) && blocksCount / geo.perGroup >= |geo.bitmaps|
      ensures !r.Found? ==> Vol() == old(Vol()) && itable == old(itable) && ibitmaps == old(ibitmaps)
      ensures r.Found? ==> Ready() && r.ino > 0 && r.ino !in old(inodes) && r.ino !in reserved
      ensures r.Found? ==> forall n :: 0 < n < r.ino ==> n in old(inodes) || n in reserved
      ensures r.Found? ==> inodes == old(inodes)[r.ino := Inode(kind, 0, 0, NOADDRS)] && Content(Vol(), r.ino) == []
      ensures Homed(geo, old(Vol())) ==> Homed(geo, Vol())
      ensures forall j :: j in old(inodes) ==> Content(Vol(), j) == Content(old(Vol()), j)
    {
      hide Good, Files, Content, Homed, BlockBit, SetBlockBit, Geometry.Groups;
      GeoValid(geo, Vol());
      geo.GroupsVisited(blocksCount);
      var place, after := FreeInode(blocksCount / geo.perGroup);
      match place
      case NoBit =>
        NothingFree();
        r := NoInodes;
      case Beyond =>
        NothingFree();
        r := BeyondGroups;
      case FreeBit(i, fbit) =>
        var ino := geo.InodeOf(i, fbit);
        LowestFree(i, fbit);
        TakenInode(i, fbit, after);
        ibitmaps := ibitmaps[i := after];
        NewInode(ino, kind);
        r := Found(ino);
    }

    /** Its loop, up to the group with a free bit. */
    method FreeInode(bgcount: nat) returns (place: Place, after: Block)
      requires InodesAgree() && |ibitmaps| <= bgcount + 1
      ensures place.FreeBit? ==>
                && place.g < |ibitmaps| && place.k < geo.inodesPerGroup && !BlockBit(ibitmaps[place.g], place.k)
                && after == SetBlockBit(ibitmaps[place.g], place.k, true)
                && (forall h, l :: 0 <= h < place.g && 0 <= l < geo.inodesPerGroup ==> BlockBit(ibitmaps[h], l))
                && (forall l :: 0 <= l < place.k ==> BlockBit(ibitmaps[place.g], l))
      ensures !place.FreeBit? ==> AllBits()
      ensures !place.FreeBit? ==> (place.Beyond? <==> bgcount >= |ibitmaps|)
    {
      hide BlockBit, SetBlockBit;
      var i := 0;
      while i <= bgcount
        invariant 0 <= i <= |ibitmaps|
        invariant forall h, l :: 0 <= h < i && 0 <= l < geo.inodesPerGroup ==> BlockBit(ibitmaps[h], l)
      {
        if i == |ibitmaps| {
          return Beyond, ZeroBlock();
        }
        var bit, now := GetFreeBit(ibitmaps[i], geo.inodesPerGroup);
        if bit != -1 {
          return FreeBit(i, bit), now;
        }
        i := i + 1;
      }
      return NoBit, ZeroBlock();
    }

    ghost predicate AllBits()
      reads this
    {
      forall h, l :: 0 <= h < |ibitmaps| && 0 <= l < geo.inodesPerGroup && l < 8192 ==> BlockBit(ibitmaps[h], l)
    }

    lemma NothingFree()
      requires InodesAgree() && AllBits()
      ensures NoFreeInode()
    {
      hide BlockBit;
    }

    lemma LowestFree(g: nat, k: nat)
      requires InodesAgree() && g < |ibitmaps| && k < geo.inodesPerGroup && !BlockBit(ibitmaps[g], k)
      requires forall h, l :: 0 <= h < g && 0 <= l < geo.inodesPerGroup ==> BlockBit(ibitmaps[h], l)
      requires forall l :: 0 <= l < k ==> BlockBit(ibitmaps[g], l)
      ensures var ino := geo.InodeOf(g, k);
              && ino !in inodes && ino !in reserved && geo.GroupOfInode(ino) == g
              && forall n :: 0 < n < ino ==> n in inodes || n in reserved
    {
      hide BlockBit;
      geo.InodePlace(g, k);
      forall n: nat | 0 < n < geo.InodeOf(g, k) ensures n in inodes || n in reserved {
        var h, l := geo.InodesBelow(g, k, n);
        assert BlockBit(ibitmaps[h], l);
      }
    }

    /** The bitmap with one more bit agrees with the inodes and one more. */
    lemma TakenInode(g: nat, k: nat, after: Block)
      requires InodesAgree() && g < |ibitmaps| && k < geo.inodesPerGroup && after == SetBlockBit(ibitmaps[g], k, true)
      ensures forall h, l :: 0 <= h < |ibitmaps| && 0 <= l < geo.inodesPerGroup ==>
                (BlockBit(ibitmaps[g := after][h], l) <==>
                 geo.InodeOf(h, l) in inodes.Keys + {geo.InodeOf(g, k)} || geo.InodeOf(h, l) in reserved)
    {
      hide BlockBit;
      geo.InodePlace(g, k);
      forall h, l | 0 <= h < |ibitmaps| && 0 <= l < geo.inodesPerGroup
        ensures BlockBit(ibitmaps[g := after][h], l) <==>
                geo.InodeOf(h, l) in inodes.Keys + {geo.InodeOf(g, k)} || geo.InodeOf(h, l) in reserved
      {
        geo.InodePlace(h, l);
        assert BlockBit(ibitmaps[h], l) <==> geo.InodeOf(h, l) in inodes || geo.InodeOf(h, l) in reserved;
      }
    }

    /** ext2fs_ifree, for a truncated inode: its bit is set, so the "already free" panic is not
        reached. */
    method Ifree(ino: nat)
      requires Ready() && InodesAgree() && ino in inodes && inodes[ino].addrs == NOADDRS
      modifies this`inodes, this`itable, this`ibitmaps
      ensures Ready() && InodesAgree() && inodes == old(inodes) - {ino}
      ensures Homed(geo, old(Vol())) ==> Homed(geo, Vol())
      ensures forall j :: j in inodes ==> Content(Vol(), j) == Content(old(Vol()), j)
    {
      hide Good, Files, Content, BlockBit, SetBlockBit;
      GoodGroup(geo, Vol(), ino);
      geo.InodeBack(ino);
      var gno := geo.GroupOfInode(ino);
      var index := (ino - 1) % geo.inodesPerGroup;
      assert BlockBit(ibitmaps[gno], index);
      FreedInode(gno, index);
      ibitmaps := ibitmaps[gno := SetBlockBit(ibitmaps[gno], index, false)];
      GoneInode(geo, Vol(), ino);
      inodes := inodes - {ino};
      itable := itable - {ino};
    }

    lemma FreedInode(g: nat, k: nat)
      requires InodesAgree() && g < |ibitmaps| && k < geo.inodesPerGroup && geo.InodeOf(g, k) !in reserved
      ensures var now := ibitmaps[g := SetBlockBit(ibitmaps[g], k, false)];
              forall h, l :: 0 <= h < |ibitmaps| && 0 <= l < geo.inodesPerGroup ==>
                (BlockBit(now[h], l) <==>
                 geo.InodeOf(h, l) in inodes.Keys - {geo.InodeOf(g, k)} || geo.InodeOf(h, l) in reserved)
    {
      hide BlockBit;
      geo.InodePlace(g, k);
      var now := ibitmaps[g := SetBlockBit(ibitmaps[g], k, false)];
      forall h, l | 0 <= h < |ibitmaps| && 0 <= l < geo.inodesPerGroup
        ensures BlockBit(now[h], l) <==>
                geo.InodeOf(h, l) in inodes.Keys - {geo.InodeOf(g, k)} || geo.InodeOf(h, l) in reserved
      {
        geo.InodePlace(h, l);
        assert BlockBit(ibitmaps[h], l) <==> geo.InodeOf(h, l) in inodes || geo.InodeOf(h, l) in reserved;
      }
    }

    /** The part of ext2fs_ialloc and ext2fs_ilock that matters here: a new inode starts
        with a zeroed slot. */
    method NewInode(ino: nat, kind: Kind)
      requires Ready() && ino !in inodes && geo.GroupOfInode(ino) < |geo.bitmaps|
      modifies this`inodes, this`itable
      ensures Ready() && ino in inodes && Content(Vol(), ino) == []
      ensures inodes == old(inodes)[ino := Inode(kind, 0, 0, NOADDRS)]
      ensures Homed(geo, old(Vol())) ==> Homed(geo, Vol())
      ensures forall j :: j in old(inodes) ==> Content(Vol(), j) == Content(old(Vol()), j)
    {
      hide Good, Files, Content;
      ghost var v := Vol();
      inodes := inodes[ino := Inode(kind, 0, 0, NOADDRS)];
      FreshInode(geo, v, ino, inodes[ino]);
      itable := itable[ino := inodes[ino]];
    }
  }
}
