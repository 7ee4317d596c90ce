/** The block tree of an ext2 inode as a function of the disk: which block sits
    at each position, and who owns it. */
module Ext2Tree {
  import opened Basics
  import opened Ext2Block

  const NDIR := 12          // EXT2_NDIR_BLOCKS
  const IND := 12           // EXT2_IND_BLOCK
  const DIND := 13          // EXT2_DIND_BLOCK
  const TIND := 14          // EXT2_TIND_BLOCK
  const INDIRECT := 256     // EXT2_INDIRECT
  const MAXBN := 65804      // direct, single and double indirect blocks: 12 + 256 + 256 * 256

  type Disk = map<nat, Block>

  /** ad->addrs; the triple indirect slot is never filled. */
  type Addrs = a: seq<Word> | |a| == 15 && a[14] == 0 witness seq(15, _ => 0)
  type DirIdx = i: nat | i < 12
  type WordIdx = i: nat | i < 256

  datatype Kind = File | Directory
  datatype Inode = Inode(kind: Kind, nlink: nat, size: Word, addrs: Addrs)

  // ---- positions ----

  /** A slot that can hold a block number: twelve direct ones, the two index roots,
      and the words of index blocks. */
  datatype Pos =
    | Direct(d: DirIdx) | IndRoot | IndLeaf(i: WordIdx)
    | DindRoot | DindMid(i: WordIdx) | DindLeaf(i: WordIdx, j: WordIdx)
  {
    predicate Top() { Direct? || IndRoot? || DindRoot? }

    predicate Data() { Direct? || IndLeaf? || DindLeaf? }

    /** Index into ad->addrs of a top slot. */
    function Slot(): nat
      requires Top()
      ensures Slot() < TIND
    {
      match this case Direct(d) => d case IndRoot => IND case DindRoot => DIND
    }

    /** The position of the index block that holds a slot, and the word in it. */
    function Parent(): Pos
      requires !Top()
      ensures !Parent().Data() && Parent().Depth() < Depth()
    {
      match this case IndLeaf(_) => IndRoot case DindMid(_) => DindRoot case DindLeaf(i, _) => DindMid(i)
    }

    function Index(): WordIdx
      requires !Top()
    {
      match this case IndLeaf(i) => i case DindMid(i) => i case DindLeaf(_, j) => j
    }

    function Depth(): nat { if Top() then 0 else if DindLeaf? then 2 else 1 }
  }

  /** Where the bn-th block of a file is recorded. */
  function LeafPos(bn: nat): (p: Pos)
    requires bn < MAXBN
    ensures p.Data()
  {
    if bn < NDIR then Direct(bn)
    else if bn < NDIR + INDIRECT then IndLeaf(bn - NDIR)
    else DindLeaf((bn - NDIR - INDIRECT) / INDIRECT, (bn - NDIR - INDIRECT) % INDIRECT)
  }

  /** Block numbers are relative to first_partition_block. */
  function Abs(part: nat, b: nat): nat { part + b }

  function WordAt(disk: Disk, at: nat, i: WordIdx): Word {
    if at in disk then GetWord(disk[at], i) else 0
  }

  /** The block number recorded at position p of an inode; 0 when there is none. */
  function Lookup(part: nat, disk: Disk, addrs: Addrs, p: Pos): Word
    decreases p.Depth()
  {
    if p.Top() then addrs[p.Slot()]
    else
      var parent := Lookup(part, disk, addrs, p.Parent());
      if parent == 0 then 0 else WordAt(disk, Abs(part, parent), p.Index())
  }

  // ---- ownership ----

  type Owner = map<nat, (nat, Pos)>

  /** A volume: partition start, the block numbers that may hold file blocks, the disk,
      every inode, and who owns which block. */
  datatype Volume = Volume(part: nat, usable: set<nat>, disk: Disk, inodes: map<nat, Inode>, owner: Owner)
  {
    function At(ino: nat, p: Pos): Word
      requires ino in inodes
    {
      Lookup(part, disk, inodes[ino].addrs, p)
    }

    /** Every recorded block is a usable block with exactly one owner position. */
    ghost predicate Owned() {
      && 0 !in usable
      && (forall b :: b in usable ==> Abs(part, b) in disk)
      && (forall b :: b in owner ==>
            b in usable && owner[b].0 in inodes && At(owner[b].0, owner[b].1) == b)
      && (forall ino, p: Pos :: ino in inodes && At(ino, p) != 0 ==>
            At(ino, p) in owner && owner[At(ino, p)] == (ino, p))
    }

    /** Slot p of ino is empty and its index block, if it needs one, exists. */
    ghost predicate Vacant(ino: nat, p: Pos) {
      && ino in inodes && At(ino, p) == 0
      && (!p.Top() ==> At(ino, p.Parent()) != 0)
    }

    /** d is this disk after ext2fs_balloc returned b: b was free and is now zeroed, and
        no other usable block changed. */
    ghost predicate Balloced(d: Disk, b: nat) {
      && b in usable && b !in owner && b < U32
      && Abs(part, b) in d && d[Abs(part, b)] == ZeroBlock()
      && (forall c :: c in usable && c != b ==>
            Abs(part, c) in d && Abs(part, c) in disk && d[Abs(part, c)] == disk[Abs(part, c)])
    }

    /** Block number b written into slot p of ino. */
    function Store(ino: nat, p: Pos, b: Word): Volume
      requires ino in inodes
    {
      if p.Top() then
        this.(inodes := inodes[ino := inodes[ino].(addrs := inodes[ino].addrs[p.Slot() := b])],
              owner := owner[b := (ino, p)])
      else
        var at := Abs(part, At(ino, p.Parent()));
        this.(disk := if at in disk then disk[at := SetWord(disk[at], p.Index(), b)] else disk,
              owner := owner[b := (ino, p)])
    }

    /** Allocation followed by recording the new block. */
    function Adopt(d: Disk, ino: nat, p: Pos, b: Word): Volume
      requires ino in inodes
    {
      this.(disk := d).Store(ino, p, b)
    }

    /** A block number is recorded at one position of one inode only. */
    lemma OneOwner(ino: nat, p: Pos, jno: nat, q: Pos)
      requires Owned() && ino in inodes && jno in inodes
      requires At(ino, p) != 0
      ensures At(ino, p) in usable
      ensures At(jno, q) == At(ino, p) <==> (jno, q) == (ino, p)
    {
      assert owner[At(ino, p)] == (ino, p);
      assert At(jno, q) != 0 ==> owner[At(jno, q)] == (jno, q);
    }

    /** balloc leaves the contents of every recorded block, and with it the tree, alone. */
    lemma {:induction false} BallocKeeps(d: Disk, b: nat, ino: nat, p: Pos)
      requires Owned() && Balloced(d, b) && ino in inodes
      ensures this.(disk := d).At(ino, p) == At(ino, p)
      ensures At(ino, p) != 0 ==>
                && At(ino, p) != b && Abs(part, At(ino, p)) in disk && Abs(part, At(ino, p)) in d
                && d[Abs(part, At(ino, p))] == disk[Abs(part, At(ino, p))]
      decreases p.Depth()
    {
      assert At(ino, p) != 0 ==> At(ino, p) in owner;
      if !p.Top() {
        BallocKeeps(d, b, ino, p.Parent());
      }
    }

    /** The words of recorded index blocks after b is stored at p. */
    lemma AdoptWord(d: Disk, ino: nat, p: Pos, b: nat, jno: nat, q: Pos)
      requires Owned() && Balloced(d, b) && Vacant(ino, p) && jno in inodes
      requires !q.Top() && At(jno, q.Parent()) != 0
      ensures WordAt(Adopt(d, ino, p, b).disk, Abs(part, At(jno, q.Parent())), q.Index())
           == if jno == ino && q == p then b else At(jno, q)
    {
      var parent := At(jno, q.Parent());
      BallocKeeps(d, b, jno, q.Parent());
      if !p.Top() {
        BallocKeeps(d, b, ino, p.Parent());
        OneOwner(ino, p.Parent(), jno, q.Parent());
        if parent == At(ino, p.Parent()) {
          SetWordGetWord(d[Abs(part, parent)], p.Index(), b, q.Index());
          assert q.Index() == p.Index() <==> q == p;
        }
      }
    }

    /** The only usable blocks that differ after Adopt are b, now zero, and p's index block. */
    lemma AdoptDisk(d: Disk, ino: nat, p: Pos, b: nat, c: nat)
      requires Owned() && Balloced(d, b) && Vacant(ino, p)
      requires c in usable && (p.Top() || c != At(ino, p.Parent()))
      ensures Abs(part, c) in disk && Abs(part, c) in Adopt(d, ino, p, b).disk
      ensures Adopt(d, ino, p, b).disk[Abs(part, c)] == if c == b then ZeroBlock() else disk[Abs(part, c)]
    {
      var v := Adopt(d, ino, p, b);
      if !p.Top() {
        BallocKeeps(d, b, ino, p.Parent());
        assert v.disk == d[Abs(part, At(ino, p.Parent())) := SetWord(d[Abs(part, At(ino, p.Parent()))], p.Index(), b)];
      }
      assert v.disk[Abs(part, c)] == d[Abs(part, c)];
    }

    /** The new block is zero, so it holds no block numbers. */
    lemma AdoptFresh(d: Disk, ino: nat, p: Pos, b: nat)
      requires Owned() && Balloced(d, b) && Vacant(ino, p)
      ensures Abs(part, b) in Adopt(d, ino, p, b).disk && Adopt(d, ino, p, b).disk[Abs(part, b)] == ZeroBlock()
      ensures forall i: WordIdx :: WordAt(Adopt(d, ino, p, b).disk, Abs(part, b), i) == 0
    {
      assert p.Top() || At(ino, p.Parent()) in owner;
      AdoptDisk(d, ino, p, b, b);
      forall i: WordIdx ensures WordAt(Adopt(d, ino, p, b).disk, Abs(part, b), i) == 0 {
        ZeroWords(i);
      }
    }

    /** The slots below an index block read the words of that block. */
    lemma AtChild(ino: nat, q: Pos)
      requires ino in inodes && !q.Top()
      ensures At(ino, q) ==
              if At(ino, q.Parent()) == 0 then 0 else WordAt(disk, Abs(part, At(ino, q.Parent())), q.Index())
    {}

    lemma ParentFilled(ino: nat, q: Pos)
      requires ino in inodes && !q.Top()
      ensures At(ino, q) != 0 ==> At(ino, q.Parent()) != 0
    {}

    /** The words through which the bn-th block of a file is found: the slot bn itself, word
        bn - 12 of the block in slot 12, or, with n = bn - 268, word n % 256 of the block in word
        n / 256 of the block in slot 13. */
    lemma DirectWords(ino: nat, bn: nat)
      requires ino in inodes && bn < 12
      ensures At(ino, LeafPos(bn)) == inodes[ino].addrs[bn]
    {}

    lemma SingleWords(ino: nat, bn: nat)
      requires ino in inodes && 12 <= bn < 268 && At(ino, LeafPos(bn)) != 0
      ensures var list := part + inodes[ino].addrs[12];
              list in disk && At(ino, LeafPos(bn)) == GetWord(disk[list], bn - 12)
    {
      AtChild(ino, LeafPos(bn));
    }

    lemma DoubleWords(ino: nat, bn: nat)
      requires ino in inodes && 268 <= bn < MAXBN && At(ino, LeafPos(bn)) != 0
      ensures var root := part + inodes[ino].addrs[13];
              && root in disk && part + GetWord(disk[root], (bn - 268) / 256) in disk
              && At(ino, LeafPos(bn)) ==
                 GetWord(disk[part + GetWord(disk[root], (bn - 268) / 256)], (bn - 268) % 256)
    {
      AtChild(ino, LeafPos(bn));
      AtChild(ino, LeafPos(bn).Parent());
    }

    /** Slot p of ino now reads b and every other slot of every inode reads as before. */
    lemma {:induction false} AdoptAt(d: Disk, ino: nat, p: Pos, b: nat, jno: nat, q: Pos)
      requires Owned() && Balloced(d, b) && Vacant(ino, p) && jno in inodes
      ensures Adopt(d, ino, p, b).At(jno, q) == if jno == ino && q == p then b else At(jno, q)
      decreases q.Depth()
    {
      if q.Top() {
        AdoptTop(d, ino, p, b, jno, q);
      } else {
        AdoptAt(d, ino, p, b, jno, q.Parent());
        AdoptChild(d, ino, p, b, jno, q);
      }
    }

    lemma AdoptTop(d: Disk, ino: nat, p: Pos, b: Word, jno: nat, q: Pos)
      requires ino in inodes && jno in inodes && q.Top()
      ensures Adopt(d, ino, p, b).At(jno, q) == if jno == ino && q == p then b else At(jno, q)
    {}

    lemma AdoptChild(d: Disk, ino: nat, p: Pos, b: nat, jno: nat, q: Pos)
      requires Owned() && Balloced(d, b) && Vacant(ino, p) && jno in inodes && !q.Top()
      requires Adopt(d, ino, p, b).At(jno, q.Parent()) ==
               if jno == ino && q.Parent() == p then b else At(jno, q.Parent())
      ensures Adopt(d, ino, p, b).At(jno, q) == if jno == ino && q == p then b else At(jno, q)
    {
      var v := Adopt(d, ino, p, b);
      v.AtChild(jno, q);
      AtChild(jno, q);
      assert q.Parent() != q;
      if jno == ino && q.Parent() == p {
        AdoptFresh(d, ino, p, b);
        assert v.At(jno, q) == 0 == At(jno, q);
      } else if At(jno, q.Parent()) != 0 {
        AdoptWord(d, ino, p, b, jno, q);
      } else {
        assert v.At(jno, q) == 0 == At(jno, q);
        assert !(jno == ino && q == p);
      }
    }

    /** No recorded data block changes. */
    lemma AdoptContents(d: Disk, ino: nat, p: Pos, b: nat, jno: nat, q: Pos)
      requires Owned() && Balloced(d, b) && Vacant(ino, p) && jno in inodes && q.Data()
      requires At(jno, q) != 0
      ensures Abs(part, At(jno, q)) in disk && Abs(part, At(jno, q)) in Adopt(d, ino, p, b).disk
      ensures Adopt(d, ino, p, b).disk[Abs(part, At(jno, q))] == disk[Abs(part, At(jno, q))]
    {
      assert At(jno, q) in owner;
      if !p.Top() {
        OneOwner(jno, q, ino, p.Parent());
      }
      AdoptDisk(d, ino, p, b, At(jno, q));
    }

    lemma AdoptAll(d: Disk, ino: nat, p: Pos, b: nat)
      requires Owned() && Balloced(d, b) && Vacant(ino, p)
      ensures forall j, q: Pos :: j in inodes ==>
                Adopt(d, ino, p, b).At(j, q) == if j == ino && q == p then b else At(j, q)
    {
      forall j, q: Pos | j in inodes
        ensures Adopt(d, ino, p, b).At(j, q) == if j == ino && q == p then b else At(j, q)
      {
        AdoptAt(d, ino, p, b, j, q);
      }
    }

    lemma AdoptShape(d: Disk, ino: nat, p: Pos, b: nat)
      requires Owned() && Balloced(d, b) && Vacant(ino, p)
      ensures var w := Adopt(d, ino, p, b);
              && w.part == part && w.usable == usable && w.inodes.Keys == inodes.Keys
              && w.owner == owner[b := (ino, p)]
              && (forall c :: c in usable ==> Abs(part, c) in w.disk)
    {}

    /** Ownership survives allocating a block and recording it in a vacant slot. */
    lemma AdoptOwned(d: Disk, ino: nat, p: Pos, b: nat)
      requires Owned() && Balloced(d, b) && Vacant(ino, p)
      ensures Adopt(d, ino, p, b).Owned()
    {
      hide Volume.At, Volume.Adopt, Volume.Balloced;
      assert b in usable && b !in owner && b != 0 by { BallocedIs(d, b); }
      AdoptAll(d, ino, p, b);
      AdoptShape(d, ino, p, b);
    }

    lemma BallocedIs(d: Disk, b: nat)
      requires Owned() && Balloced(d, b)
      ensures b in usable && b !in owner && b != 0
    {}
  }
}
