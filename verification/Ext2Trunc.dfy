/** Truncation frees the blocks of an inode in one order: the direct blocks, what the
    indirect block lists and then that block, and for the double indirect block each list
    below it, the list's own block, and last the root. */
module Ext2Trunc {
  import opened Basics
  import opened Ext2Block
  import opened Ext2Tree
  import opened Ext2Bitmap
  import opened Ext2Grow

  const LAST: nat := 66062   // 12 + 256 + 1 + 256 * 257 + 1

  /** The place of a position in that order. */
  function Rank(p: Pos): (r: nat)
    ensures r < LAST
  {
    match p
    case Direct(d) => d
    case IndLeaf(i) => 12 + i
    case IndRoot => 268
    case DindLeaf(i, j) => 269 + 257 * i + j
    case DindMid(i) => 269 + 257 * i + 256
    case DindRoot => 66061
  }

  lemma RankInjective(p: Pos, q: Pos)
    ensures Rank(p) == Rank(q) <==> p == q
  {}

  /** w is v after ext2fs_bfree(b), apart from the bitmaps. */
  ghost predicate Freed(v: Volume, w: Volume, b: nat) {
    && w == v.(disk := w.disk, owner := v.owner - {b})
    && w.disk.Keys == v.disk.Keys
    && (forall c :: c in v.usable && Abs(v.part, c) in v.disk ==> w.disk[Abs(v.part, c)] == v.disk[Abs(v.part, c)])
  }

  /** Neither the descriptor block nor a bitmap is locked. */
  ghost predicate CanFree(geo: Geometry, v: Volume, held: set<nat>) {
    && Abs(v.part, 2) !in held
    && (forall g :: 0 <= g < |geo.bitmaps| ==> Abs(v.part, geo.bitmaps[g]) !in held)
  }

  /** v is v0 part way through truncating ino: exactly the positions of rank below k have
      given up their blocks, and the index blocks still read as they did. */
  ghost predicate Truncating(v0: Volume, v: Volume, ino: nat, k: nat) {
    && ino in v0.inodes
    && v.part == v0.part && v.usable == v0.usable
    && v.inodes.Keys == v0.inodes.Keys
    && (forall j :: j in v0.inodes && j != ino ==> v.inodes[j] == v0.inodes[j])
    && v.disk.Keys == v0.disk.Keys
    && (forall c :: c in v0.usable && Abs(v0.part, c) in v0.disk ==>
          v.disk[Abs(v0.part, c)] == v0.disk[Abs(v0.part, c)])
    && (forall b :: b in v.owner <==> b in v0.owner && !(v0.owner[b].0 == ino && Rank(v0.owner[b].1) < k))
    && (forall b :: b in v.owner ==> v.owner[b] == v0.owner[b])
  }

  lemma TruncFreed(v0: Volume, v: Volume, w: Volume, ino: nat, p: Pos)
    requires v0.Owned() && Truncating(v0, v, ino, Rank(p)) && v0.At(ino, p) != 0
    requires Freed(v, w, v0.At(ino, p))
    ensures Truncating(v0, w, ino, Rank(p) + 1)
  {
    hide Volume.At, Volume.Owned, Rank;
    var b := v0.At(ino, p);
    OwnerHas(v0, ino, p);
    forall c | c in v0.owner && v0.owner[c].0 == ino ensures Rank(v0.owner[c].1) == Rank(p) <==> c == b {
      OwnerRank(v0, ino, p, c);
    }
  }

  lemma OwnerHas(v: Volume, ino: nat, p: Pos)
    requires v.Owned() && ino in v.inodes && v.At(ino, p) != 0
    ensures v.At(ino, p) in v.owner && v.owner[v.At(ino, p)] == (ino, p)
  {}

  lemma OwnerRank(v: Volume, ino: nat, p: Pos, c: nat)
    requires v.Owned() && ino in v.inodes && v.At(ino, p) != 0 && c in v.owner && v.owner[c].0 == ino
    ensures Rank(v.owner[c].1) == Rank(p) <==> c == v.At(ino, p)
  {
    hide Volume.At, Rank;
    RankInjective(v.owner[c].1, p);
    assert v.owner[v.At(ino, p)] == (ino, p);
    assert v.At(ino, v.owner[c].1) == c;
  }

  /** Positions without a block are passed over. */
  lemma TruncSkip(v0: Volume, v: Volume, ino: nat, k: nat, m: nat)
    requires v0.Owned() && Truncating(v0, v, ino, k) && k <= m
    requires forall p: Pos :: k <= Rank(p) < m ==> v0.At(ino, p) == 0
    ensures Truncating(v0, v, ino, m)
  {
    forall b | b in v0.owner && v0.owner[b].0 == ino
      ensures Rank(v0.owner[b].1) < k <==> Rank(v0.owner[b].1) < m
    {
      assert v0.At(ino, v0.owner[b].1) == b;
    }
  }

  lemma AddrsBitmaps(geo: Geometry, v: Volume, inodes: map<nat, Inode>)
    requires BitmapsAgree(geo, v)
    ensures BitmapsAgree(geo, v.(inodes := inodes))
  {
    UsableWrite(geo, v, v.(inodes := inodes));
  }

  /** What the others see of a truncation: nothing. */
  lemma {:induction false} TruncOthers(v0: Volume, v: Volume, ino: nat, k: nat, j: nat, q: Pos)
    requires v0.Owned() && Truncating(v0, v, ino, k) && j in v0.inodes && j != ino
    ensures v.At(j, q) == v0.At(j, q)
    ensures Contents(v, j, q) == Contents(v0, j, q) || v0.At(j, q) == 0
    decreases q.Depth()
  {
    if !q.Top() {
      TruncOthers(v0, v, ino, k, j, q.Parent());
      v.AtChild(j, q);
      v0.AtChild(j, q);
      assert v0.At(j, q.Parent()) != 0 ==> v0.At(j, q.Parent()) in v0.owner;
    }
    assert v0.At(j, q) != 0 ==> v0.At(j, q) in v0.owner;
  }

  const NOADDRS: Addrs := [0, 0, 0, 0, 0, 0, 0, 0, 0, 0, 0, 0, 0, 0, 0]

  lemma NoAddrs(a: Addrs)
    requires forall k :: 0 <= k < 15 ==> a[k] == 0
    ensures a == NOADDRS
  {}

  lemma EmptyTree(v: Volume, ino: nat, q: Pos)
    requires ino in v.inodes && forall k :: 0 <= k < 15 ==> v.inodes[ino].addrs[k] == 0
    ensures v.At(ino, q) == 0
  {
    if !q.Top() {
      v.AtChild(ino, q);
      if !q.Parent().Top() { v.AtChild(ino, q.Parent()); }
    }
  }

  /** When every position has been passed and the pointers are cleared the invariant holds
      again: ino owns nothing, and every block it owned is free. */
  lemma TruncDone(geo: Geometry, v0: Volume, v: Volume, ino: nat)
    requires Good(geo, v0) && BitmapsAgree(geo, v) && Truncating(v0, v, ino, LAST)
    requires forall k :: 0 <= k < 15 ==> v.inodes[ino].addrs[k] == 0
    ensures Good(geo, v)
    ensures forall b :: b in v.owner <==> b in v0.owner && v0.owner[b].0 != ino
    ensures forall q: Pos :: v.At(ino, q) == 0
  {
    forall q: Pos ensures v.At(ino, q) == 0 { EmptyTree(v, ino, q); }
    forall j, q: Pos | j in v0.inodes && j != ino
      ensures v.At(j, q) == v0.At(j, q)
    {
      TruncOthers(v0, v, ino, LAST, j, q);
    }
    assert v.Owned();
  }

  // ---- one step of ext2fs_itrunc ----

  /** Truncation of ino has reached rank k and the bitmaps agree with it. */
  ghost predicate TruncAt(geo: Geometry, v0: Volume, v: Volume, ino: nat, k: nat) {
    Good(geo, v0) && BitmapsAgree(geo, v) && Truncating(v0, v, ino, k)
  }

  lemma BeginTrunc(geo: Geometry, v: Volume, ino: nat)
    requires Good(geo, v) && ino in v.inodes
    ensures TruncAt(geo, v, v, ino, 0) && CanFree(geo, v, {})
  {}

  lemma StepFreed(geo: Geometry, v0: Volume, v: Volume, w: Volume, ino: nat, p: Pos)
    requires TruncAt(geo, v0, v, ino, Rank(p)) && v0.At(ino, p) != 0
    requires BitmapsAgree(geo, w) && Freed(v, w, v0.At(ino, p))
    ensures TruncAt(geo, v0, w, ino, Rank(p) + 1)
  {
    TruncFreed(v0, v, w, ino, p);
  }

  lemma StepSkip(geo: Geometry, v0: Volume, v: Volume, ino: nat, k: nat, m: nat)
    requires TruncAt(geo, v0, v, ino, k) && k <= m
    requires forall p: Pos :: k <= Rank(p) < m ==> v0.At(ino, p) == 0
    ensures TruncAt(geo, v0, v, ino, m)
  {
    TruncSkip(v0, v, ino, k, m);
  }

  lemma SkipOne(geo: Geometry, v0: Volume, v: Volume, ino: nat, p: Pos)
    requires TruncAt(geo, v0, v, ino, Rank(p)) && v0.At(ino, p) == 0
    ensures TruncAt(geo, v0, v, ino, Rank(p) + 1)
  {
    forall q: Pos | Rank(p) <= Rank(q) < Rank(p) + 1 ensures v0.At(ino, q) == 0 {
      RankInjective(p, q);
    }
    StepSkip(geo, v0, v, ino, Rank(p), Rank(p) + 1);
  }

  lemma StepAddrs(geo: Geometry, v0: Volume, v: Volume, ino: nat, k: nat, ip: Inode)
    requires TruncAt(geo, v0, v, ino, k)
    ensures TruncAt(geo, v0, v.(inodes := v.inodes[ino := ip]), ino, k)
  {
    hide Good, BitmapsAgree, Rank;
    AddrsBitmaps(geo, v, v.inodes[ino := ip]);
  }

  /** A block not reached yet is still allocated and, if it is an index block, still lists
      what it listed. Locking it does not get in bfree's way. */
  lemma StillThere(geo: Geometry, v0: Volume, v: Volume, ino: nat, k: nat, p: Pos)
    requires TruncAt(geo, v0, v, ino, k) && k <= Rank(p) && v0.At(ino, p) != 0
    ensures var b := v0.At(ino, p);
            && b in v.owner && b in v.usable && Abs(v.part, b) in v.disk
            && (forall q: Pos :: !q.Top() && q.Parent() == p ==>
                  v0.At(ino, q) == GetWord(v.disk[Abs(v.part, b)], q.Index()))
            && CanFree(geo, v, {Abs(v.part, b)})
  {
    var b := v0.At(ino, p);
    assert v0.owner[b] == (ino, p);
    forall q: Pos | !q.Top() && q.Parent() == p
      ensures v0.At(ino, q) == GetWord(v0.disk[Abs(v.part, b)], q.Index())
    {
      v0.AtChild(ino, q);
    }
    hide Volume.At, GetWord, Rank;
    BufferApart(geo, v, b);
  }

  lemma BufferApart(geo: Geometry, v: Volume, b: nat)
    requires BitmapsAgree(geo, v) && b in v.usable
    ensures CanFree(geo, v, {Abs(v.part, b)})
  {
    forall c: nat | Abs(v.part, c) == Abs(v.part, b) ensures c == b {}
  }

  lemma FinishTrunc(geo: Geometry, v0: Volume, v: Volume, ino: nat)
    requires TruncAt(geo, v0, v, ino, LAST)
    requires forall k :: 0 <= k < 15 ==> v.inodes[ino].addrs[k] == 0
    ensures Good(geo, v) && Emptied(v0, v, ino)
  {
    TruncDone(geo, v0, v, ino);
    forall j, q: Pos | j in v0.inodes && j != ino
      ensures v.At(j, q) == v0.At(j, q) && (v0.At(j, q) != 0 ==> Contents(v, j, q) == Contents(v0, j, q))
    {
      TruncOthers(v0, v, ino, LAST, j, q);
    }
  }

  /** What truncating ino did: ino records nothing, exactly its blocks lost their owner, and
      every other inode keeps its pointers and the blocks behind them. */
  ghost predicate Emptied(v0: Volume, v: Volume, ino: nat) {
    && ino in v0.inodes && v.inodes.Keys == v0.inodes.Keys && v.part == v0.part && v.usable == v0.usable
    && (forall q: Pos :: v.At(ino, q) == 0)
    && (forall b :: b in v.owner <==> b in v0.owner && v0.owner[b].0 != ino)
    && (forall j :: j in v0.inodes && j != ino ==> v.inodes[j] == v0.inodes[j])
    && (forall j, q: Pos :: j in v0.inodes && j != ino ==>
          v.At(j, q) == v0.At(j, q) && (v0.At(j, q) != 0 ==> Contents(v, j, q) == Contents(v0, j, q)))
  }

  lemma EmptiedTable(v0: Volume, v: Volume, ino: nat)
    requires Emptied(v0, v, ino)
    ensures v.inodes == v0.inodes[ino := v.inodes[ino]]
  {
    hide Volume.At;
  }

  lemma TruncAtGood(geo: Geometry, v0: Volume, v: Volume, ino: nat, k: nat)
    requires TruncAt(geo, v0, v, ino, k)
    ensures Good(geo, v0)
  {}

  // ---- the lists of an index block ----

  predicate IsList(p: Pos) { p.IndRoot? || p.DindMid? }

  function Child(p: Pos, i: WordIdx): Pos
    requires IsList(p)
    ensures !Child(p, i).Top() && Child(p, i).Parent() == p && Child(p, i).Index() == i
    ensures Rank(Child(p, i)) + 256 == Rank(p) + i
  {
    if p.IndRoot? then IndLeaf(i) else DindLeaf(p.i, i)
  }

  /** An absent index block lists nothing. */
  lemma SkipList(geo: Geometry, v0: Volume, v: Volume, ino: nat, p: Pos)
    requires IsList(p) && TruncAt(geo, v0, v, ino, Rank(p) - 256) && v0.At(ino, p) == 0
    ensures TruncAt(geo, v0, v, ino, Rank(p) + 1)
  {
    forall q: Pos | Rank(p) - 256 <= Rank(q) < Rank(p) + 1 ensures v0.At(ino, q) == 0 {
      ListRange(p, q);
      if q != p { v0.ParentFilled(ino, q); }
    }
    StepSkip(geo, v0, v, ino, Rank(p) - 256, Rank(p) + 1);
  }

  /** The words of a from i on are the list of index block p of ino. */
  ghost predicate Lists(v0: Volume, ino: nat, p: Pos, a: Block, i: nat) {
    ino in v0.inodes && IsList(p) && forall j: WordIdx :: i <= j ==> GetWord(a, j) == v0.At(ino, Child(p, j))
  }

  lemma OpenList(geo: Geometry, v0: Volume, v: Volume, ino: nat, k: nat, p: Pos, held: set<nat>)
    requires TruncAt(geo, v0, v, ino, k) && k <= Rank(p) && v0.At(ino, p) != 0
    requires CanFree(geo, v, held)
    ensures var at := Abs(v.part, v0.At(ino, p));
            && at in v.disk && CanFree(geo, v, held + {at})
            && (IsList(p) ==> Lists(v0, ino, p, v.disk[at], 0))
            && (forall q: Pos :: !q.Top() && q.Parent() == p ==> v0.At(ino, q) == GetWord(v.disk[at], q.Index()))
  {
    StillThere(geo, v0, v, ino, k, p);
  }

  /** c is a with word i cleared. */
  ghost predicate Cleared(a: Block, c: Block, i: WordIdx) {
    forall j: WordIdx :: j != i ==> GetWord(c, j) == GetWord(a, j)
  }

  lemma ClearWord(a: Block, i: WordIdx)
    ensures Cleared(a, SetWord(a, i, 0), i)
  {
    hide GetWord, SetWord;
    forall j: WordIdx | j != i ensures GetWord(SetWord(a, i, 0), j) == GetWord(a, j) {
      SetWordGetWord(a, i, 0, j);
    }
  }

  lemma ClearListed(v0: Volume, ino: nat, p: Pos, a: Block, c: Block, i: WordIdx)
    requires Lists(v0, ino, p, a, i) && Cleared(a, c, i)
    ensures GetWord(a, i) == v0.At(ino, Child(p, i))
    ensures Lists(v0, ino, p, c, i + 1) && Lists(v0, ino, p, a, i + 1)
  {
    hide GetWord, Volume.At;
  }

  lemma ListRange(p: Pos, q: Pos)
    requires IsList(p) && Rank(p) - 256 <= Rank(q) < Rank(p) + 1
    ensures q == p || (!q.Top() && q.Parent() == p)
  {}

  lemma SkipDouble(geo: Geometry, v0: Volume, v: Volume, ino: nat)
    requires TruncAt(geo, v0, v, ino, 269) && v0.At(ino, DindRoot) == 0
    ensures TruncAt(geo, v0, v, ino, LAST)
  {
    hide Volume.At, Good, BitmapsAgree;
    forall q: Pos | 269 <= Rank(q) < LAST ensures v0.At(ino, q) == 0 {
      if !q.Top() {
        v0.ParentFilled(ino, q);
        if !q.Parent().Top() { v0.ParentFilled(ino, q.Parent()); }
      }
    }
    StepSkip(geo, v0, v, ino, 269, LAST);
  }

  lemma CanFreeKept(geo: Geometry, v: Volume, w: Volume, held: set<nat>)
    requires CanFree(geo, v, held) && w.part == v.part
    ensures CanFree(geo, w, held)
  {}

  lemma CanFreeLess(geo: Geometry, v: Volume, more: set<nat>, held: set<nat>)
    requires CanFree(geo, v, more) && held <= more
    ensures CanFree(geo, v, held)
  {}

  /** The words of a from i on are the lists below the double indirect root of ino. */
  ghost predicate Mids(v0: Volume, ino: nat, a: Block, i: nat) {
    ino in v0.inodes && forall j: WordIdx :: i <= j ==> GetWord(a, j) == v0.At(ino, DindMid(j))
  }

  lemma OpenDouble(geo: Geometry, v0: Volume, v: Volume, ino: nat, held: set<nat>)
    requires TruncAt(geo, v0, v, ino, 269) && v0.At(ino, DindRoot) != 0
    requires CanFree(geo, v, held)
    ensures var at := Abs(v.part, v0.At(ino, DindRoot));
            at in v.disk && CanFree(geo, v, held + {at}) && Mids(v0, ino, v.disk[at], 0)
  {
    hide Volume.At, GetWord, Good, BitmapsAgree, CanFree;
    OpenList(geo, v0, v, ino, 269, DindRoot, held);
    forall j: WordIdx
      ensures v0.At(ino, DindMid(j)) == GetWord(v.disk[Abs(v.part, v0.At(ino, DindRoot))], j)
    {
      assert DindMid(j).Parent() == DindRoot && DindMid(j).Index() == j;
    }
  }

  lemma ClearMid(v0: Volume, ino: nat, a: Block, c: Block, i: WordIdx)
    requires Mids(v0, ino, a, i) && Cleared(a, c, i)
    ensures GetWord(a, i) == v0.At(ino, DindMid(i))
    ensures Mids(v0, ino, c, i + 1) && Mids(v0, ino, a, i + 1)
  {
    hide GetWord, Volume.At;
  }

  /** Two index blocks of one inode are different buffers. */
  lemma OtherIndex(geo: Geometry, v0: Volume, v: Volume, ino: nat, p: Pos, q: Pos, k: nat)
    requires TruncAt(geo, v0, v, ino, k) && p != q && v0.At(ino, p) != 0
    ensures Abs(v.part, v0.At(ino, p)) != Abs(v.part, v0.At(ino, q))
  {
    v0.OneOwner(ino, p, ino, q);
  }

  lemma EmptiedSize(geo: Geometry, v0: Volume, v: Volume, ino: nat, ip: Inode)
    requires Good(geo, v) && Emptied(v0, v, ino) && ip.addrs == v.inodes[ino].addrs
    ensures var w := v.(inodes := v.inodes[ino := ip]);
            Good(geo, w) && Emptied(v0, w, ino)
  {
    hide Volume.At, Contents, BitmapsAgree;
    var w := v.(inodes := v.inodes[ino := ip]);
    SameAddrsAt(v, ino, ip);
    SameTreeOwned(v, w);
    AddrsBitmaps(geo, v, w.inodes);
  }

  /** The size of an inode has no part in where its blocks are. */
  lemma SameAddrsAt(v: Volume, ino: nat, ip: Inode)
    requires ino in v.inodes && ip.addrs == v.inodes[ino].addrs
    ensures var w := v.(inodes := v.inodes[ino := ip]);
            && (forall j, q: Pos :: j in v.inodes ==> w.At(j, q) == v.At(j, q))
            && (forall j, q: Pos :: j in v.inodes ==> Contents(w, j, q) == Contents(v, j, q))
  {}

  lemma SameTreeOwned(v: Volume, w: Volume)
    requires v.Owned() && w == v.(inodes := w.inodes) && w.inodes.Keys == v.inodes.Keys
    requires forall j, q: Pos :: j in v.inodes ==> w.At(j, q) == v.At(j, q)
    ensures w.Owned()
  {
    hide Volume.At;
  }
}
