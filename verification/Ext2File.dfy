/** A file as the byte sequence its blocks spell out, and what reading and writing one
    block at a time does to it. */
module Ext2File {
  import opened Basics
  import opened Ext2Block
  import opened Ext2Tree
  import opened Ext2Bitmap
  import opened Ext2Grow
  import opened Ext2Trunc

  /** EXT2_MAXFILE * EXT2_BSIZE, a product of 32-bit unsigned operands. */
  const MAXFILE := 12 + 256 + 256 * 256 + 256 * 256 * 256
  const LIMIT := MAXFILE * 1024 % U32

  /** The product wraps to the direct, single and double indirect blocks exactly, so no
      accepted write reaches the triple indirect branch of ext2fs_bmap. */
  lemma LimitWraps(off: nat, n: nat)
    ensures LIMIT == MAXBN * 1024
    ensures off < off + n <= LIMIT ==> off / 1024 < MAXBN && (off + n - 1) / 1024 < MAXBN
  {}

  /** Blocks a file of this size needs. */
  function Blocks(size: nat): nat { (size + 1023) / 1024 }

  /** A run of bytes that ends in the block it starts in. */
  lemma BlocksAfter(x: nat, m: nat)
    requires 0 < m && x % 1024 + m <= 1024
    ensures Blocks(x) <= Blocks(x + m) == x / 1024 + 1
  {}

  lemma BlocksCover(size: nat, off: nat, n: nat)
    ensures size <= Blocks(size) * 1024 && off + n <= Blocks(off + n) * 1024
    ensures size <= MAXBN * 1024 ==> Blocks(size) <= MAXBN
    ensures off + n <= MAXBN * 1024 ==> Blocks(off + n) <= MAXBN
    ensures off <= size ==> Blocks(off) <= Blocks(size)
  {}

  lemma InsideFits(size: nat, x: nat, end: nat)
    requires x < end
    ensures end <= size ==> x / 1024 < Blocks(size)
  {}

  /** Exactly the first n blocks of ino are mapped. */
  ghost predicate MappedTo(v: Volume, ino: nat, n: nat) {
    ino in v.inodes && forall bn :: 0 <= bn < MAXBN ==> (v.At(ino, LeafPos(bn)) != 0 <==> bn < n)
  }

  /** Every file has exactly the blocks its size needs. */
  ghost predicate Files(v: Volume) {
    forall ino :: ino in v.inodes ==> v.inodes[ino].size <= MAXBN * 1024 && MappedTo(v, ino, Blocks(v.inodes[ino].size))
  }

  /** Byte k of ino's blocks. */
  function FileByte(v: Volume, ino: nat, k: nat): Byte
    requires ino in v.inodes
  {
    if k / 1024 < MAXBN then Contents(v, ino, LeafPos(k / 1024))[k % 1024] else 0
  }

  /** The contents of ino. */
  function Content(v: Volume, ino: nat): (c: seq<Byte>)
    requires ino in v.inodes
    ensures |c| == v.inodes[ino].size
  {
    seq(v.inodes[ino].size, k requires 0 <= k => FileByte(v, ino, k))
  }

  /** c with s written at off <= |c|, growing it if s reaches past the end. */
  function Splice(c: seq<Byte>, off: nat, s: seq<Byte>): (r: seq<Byte>)
    requires off <= |c|
    ensures |r| == Max(|c|, off + |s|)
    ensures forall k :: 0 <= k < |r| ==> r[k] == if off <= k < off + |s| then s[k - off] else c[k]
  {
    c[..off] + s + (if off + |s| < |c| then c[off + |s|..] else [])
  }

  lemma SpliceRead(c: seq<Byte>, off: nat, s: seq<Byte>)
    requires off <= |c|
    ensures Splice(c, off, s)[off..off + |s|] == s
  {}

  lemma SpliceChunks(c: seq<Byte>, off: nat, s: seq<Byte>, t: seq<Byte>)
    requires off <= |c|
    ensures Splice(Splice(c, off, s), off + |s|, t) == Splice(c, off, s + t)
  {}

  /** What the other inodes see: the same pointers and the same data. */
  ghost predicate OthersKept(v0: Volume, v: Volume, ino: nat) {
    && v.part == v0.part && v.usable == v0.usable && v.inodes.Keys == v0.inodes.Keys
    && (forall j :: j in v0.inodes && j != ino ==> v.inodes[j] == v0.inodes[j])
    && (forall j, q: Pos :: j in v0.inodes && j != ino && q.Data() ==>
          v.At(j, q) == v0.At(j, q) && (v0.At(j, q) != 0 ==> Contents(v, j, q) == Contents(v0, j, q)))
  }

  lemma OtherContent(v0: Volume, v: Volume, ino: nat, j: nat)
    requires OthersKept(v0, v, ino) && Files(v0) && j in v0.inodes && j != ino
    ensures Content(v, j) == Content(v0, j)
    ensures MappedTo(v, j, Blocks(v.inodes[j].size))
  {
    forall k | 0 <= k < v0.inodes[j].size ensures FileByte(v, j, k) == FileByte(v0, j, k) {
      assert k / 1024 < Blocks(v0.inodes[j].size);
      assert v0.At(j, LeafPos(k / 1024)) != 0;
    }
    forall bn | 0 <= bn < MAXBN ensures v.At(j, LeafPos(bn)) == v0.At(j, LeafPos(bn)) {}
  }

  // ---- reading ----

  lemma SliceJoins(c: seq<Byte>, i: nat, j: nat, k: nat)
    requires i <= j <= k <= |c|
    ensures c[i..j] + c[j..k] == c[i..k]
  {}

  /** A byte below the size is in a mapped block. */
  lemma ReadMapped(v: Volume, ino: nat, x: nat)
    requires Files(v) && ino in v.inodes && x < v.inodes[ino].size
    ensures x / 1024 < MAXBN && v.At(ino, LeafPos(x / 1024)) != 0
  {
    assert x / 1024 < Blocks(v.inodes[ino].size);
  }

  /** A run of bytes inside one block is that stretch of the block. */
  lemma ReadChunk(v: Volume, ino: nat, x: nat, m: nat)
    requires ino in v.inodes && x + m <= v.inodes[ino].size && x % 1024 + m <= 1024 && x / 1024 < MAXBN
    ensures Content(v, ino)[x..x + m] == Contents(v, ino, LeafPos(x / 1024))[x % 1024..x % 1024 + m]
  {
    hide Contents, LeafPos;
    forall k | x <= k < x + m
      ensures FileByte(v, ino, k) == Contents(v, ino, LeafPos(x / 1024))[x % 1024 + (k - x)]
    {
      ChunkRange(x, m, k);
    }
  }

  /** Where byte k of a file is: at k % 1024 in the block that slot k / 1024 names, or word
      k / 1024 - 12 of the block in slot 12, or, with n = k / 1024 - 268, word n % 256 of the
      block that word n / 256 of the block in slot 13 names. */
  lemma ByteOnDisk(geo: Geometry, v: Volume, ino: nat, k: nat)
    requires Good(geo, v) && Files(v) && ino in v.inodes && k < v.inodes[ino].size
    ensures var bn, addrs, d := k / 1024, v.inodes[ino].addrs, v.disk;
            && (bn < 12 ==>
                  v.part + addrs[bn] in d && Content(v, ino)[k] == d[v.part + addrs[bn]][k % 1024])
            && (12 <= bn < 268 ==>
                  v.part + addrs[12] in d &&
                  var b := v.part + GetWord(d[v.part + addrs[12]], bn - 12);
                  b in d && Content(v, ino)[k] == d[b][k % 1024])
            && (268 <= bn ==>
                  && bn < MAXBN && v.part + addrs[13] in d
                  && var list := v.part + GetWord(d[v.part + addrs[13]], (bn - 268) / 256);
                     list in d &&
                     var b := v.part + GetWord(d[list], (bn - 268) % 256);
                     b in d && Content(v, ino)[k] == d[b][k % 1024])
  {
    hide Volume.At, LeafPos, Contents, Good, Files, GetWord;
    var bn := k / 1024;
    ReadMapped(v, ino, k);
    MappedBlock(geo, v, ino, bn);
    assert Content(v, ino)[k] == FileByte(v, ino, k) == Contents(v, ino, LeafPos(bn))[k % 1024];
    if bn < 12 {
      v.DirectWords(ino, bn);
    } else if bn < 268 {
      v.SingleWords(ino, bn);
    } else {
      v.DoubleWords(ino, bn);
    }
  }

  // ---- writing ----

  /** Part way through ext2fs_writei: `tot` bytes of src are in place, everything below the
      old size outside them is as it was, and the mapped blocks are a prefix. */
  ghost predicate Writing(v0: Volume, v: Volume, ino: nat, off: nat, src: seq<Byte>, tot: nat, mapped: nat) {
    && ino in v0.inodes && OthersKept(v0, v, ino)
    && v.inodes[ino] == v0.inodes[ino].(addrs := v.inodes[ino].addrs)
    && off <= v0.inodes[ino].size && tot <= |src| && off + tot <= mapped * 1024
    && MappedTo(v, ino, mapped)
    && (forall k :: off <= k < off + tot ==> FileByte(v, ino, k) == src[k - off])
    && (forall k :: 0 <= k < v0.inodes[ino].size && !(off <= k < off + tot) ==>
          FileByte(v, ino, k) == FileByte(v0, ino, k))
  }

  lemma BeginWrite(v: Volume, ino: nat, off: nat, src: seq<Byte>)
    requires ino in v.inodes && Files(v) && off <= v.inodes[ino].size
    ensures Writing(v, v, ino, off, src, 0, Blocks(v.inodes[ino].size))
    ensures v.inodes[ino].size <= MAXBN * 1024
  {}

  /** Mapping the block the next byte falls in keeps all that; if it was not mapped it is
      the block right after the mapped ones. */
  lemma WriteGrew(v0: Volume, v: Volume, w: Volume, ino: nat, off: nat, src: seq<Byte>, tot: nat, mapped: nat)
    requires Writing(v0, v, ino, off, src, tot, mapped)
    requires v0.inodes[ino].size <= mapped * 1024
    requires off + tot < MAXBN * 1024
    requires Grew(v, w, ino, LeafPos((off + tot) / 1024))
    ensures Writing(v0, w, ino, off, src, tot, Max(mapped, (off + tot) / 1024 + 1))
  {
    hide Grew, Volume.At, Contents, LeafPos, FileByte, OthersKept;
    var bn := (off + tot) / 1024;
    GrewShape(v, w, ino, LeafPos(bn));
    GrewOthers(v0, v, w, ino, LeafPos(bn));
    forall cn | 0 <= cn < MAXBN
      ensures w.At(ino, LeafPos(cn)) != 0 <==> cn == bn || v.At(ino, LeafPos(cn)) != 0
    {
      GrewLeaf(v, w, ino, bn, cn);
    }
    forall k | 0 <= k < mapped * 1024 ensures FileByte(w, ino, k) == FileByte(v, ino, k) {
      GrewByte(v, w, ino, LeafPos(bn), k);
    }
  }

  lemma GrewOthers(v0: Volume, v: Volume, w: Volume, ino: nat, p: Pos)
    requires OthersKept(v0, v, ino) && Grew(v, w, ino, p)
    ensures OthersKept(v0, w, ino)
  {
    hide Volume.At, Contents, Volume.Owned;
  }

  lemma LeafDiffer(an: nat, bn: nat)
    requires an < MAXBN && bn < MAXBN && an != bn
    ensures LeafPos(an) != LeafPos(bn)
  {}

  lemma GrewLeaf(v: Volume, w: Volume, ino: nat, bn: nat, cn: nat)
    requires bn < MAXBN && cn < MAXBN && Grew(v, w, ino, LeafPos(bn))
    ensures w.At(ino, LeafPos(cn)) != 0 <==> cn == bn || v.At(ino, LeafPos(cn)) != 0
  {
    hide Volume.At, Contents, Volume.Owned, LeafPos;
    if cn != bn { LeafDiffer(cn, bn); }
  }

  lemma GrewByte(v: Volume, w: Volume, ino: nat, p: Pos, k: nat)
    requires Grew(v, w, ino, p) && (k / 1024 < MAXBN ==> v.At(ino, LeafPos(k / 1024)) != 0)
    ensures FileByte(w, ino, k) == FileByte(v, ino, k)
  {
    hide Volume.At, Contents, Volume.Owned, LeafPos;
  }

  /** One data block rewritten. */
  lemma DataWrite(geo: Geometry, v: Volume, ino: nat, p: Pos, blk: Block)
    requires Good(geo, v) && ino in v.inodes && p.Data() && v.At(ino, p) != 0
    ensures var w := v.(disk := v.disk[Abs(v.part, v.At(ino, p)) := blk]);
            && Good(geo, w)
            && (forall j, q: Pos :: j in v.inodes ==> w.At(j, q) == v.At(j, q))
            && (forall j, q: Pos :: j in v.inodes && v.At(j, q) != 0 ==>
                  Contents(w, j, q) == if (j, q) == (ino, p) then blk else Contents(v, j, q))
  {
    var w := v.(disk := v.disk[Abs(v.part, v.At(ino, p)) := blk]);
    forall j, q: Pos | j in v.inodes ensures w.At(j, q) == v.At(j, q) {
      DataWriteAt(v, ino, p, blk, j, q);
    }
    forall j, q: Pos | j in v.inodes && v.At(j, q) != 0
      ensures Contents(w, j, q) == if (j, q) == (ino, p) then blk else Contents(v, j, q)
    {
      v.OneOwner(ino, p, j, q);
      assert v.At(j, q) in v.owner;
    }
    DataWriteGood(geo, v, w, v.At(ino, p));
  }

  lemma {:induction false} DataWriteAt(v: Volume, ino: nat, p: Pos, blk: Block, j: nat, q: Pos)
    requires v.Owned() && ino in v.inodes && p.Data() && v.At(ino, p) != 0 && j in v.inodes
    ensures v.(disk := v.disk[Abs(v.part, v.At(ino, p)) := blk]).At(j, q) == v.At(j, q)
    decreases q.Depth()
  {
    if !q.Top() {
      var w := v.(disk := v.disk[Abs(v.part, v.At(ino, p)) := blk]);
      DataWriteAt(v, ino, p, blk, j, q.Parent());
      v.AtChild(j, q);
      w.AtChild(j, q);
      v.OneOwner(ino, p, j, q.Parent());
    }
  }

  lemma DataWriteGood(geo: Geometry, v: Volume, w: Volume, b: nat)
    requires Good(geo, v) && b in v.usable && Abs(v.part, b) in w.disk
    requires w == v.(disk := v.disk[Abs(v.part, b) := w.disk[Abs(v.part, b)]])
    requires forall j, q: Pos :: j in v.inodes ==> w.At(j, q) == v.At(j, q)
    ensures Good(geo, w)
  {
    UsableWrite(geo, v, w);
  }

  /** memmove(bp->data + o, src, |s|) */
  function Patch(b: Block, o: nat, s: seq<Byte>): (r: Block)
    requires o + |s| <= 1024
    ensures forall k :: 0 <= k < 1024 ==> r[k] == if o <= k < o + |s| then s[k - o] else b[k]
  {
    b[..o] + s + b[o + |s|..]
  }

  /** Mapping in force: block bn of ino is on the disk. */
  lemma MappedBlock(geo: Geometry, v: Volume, ino: nat, bn: nat)
    requires Good(geo, v) && ino in v.inodes && bn < MAXBN && v.At(ino, LeafPos(bn)) != 0
    ensures var at := Abs(v.part, v.At(ino, LeafPos(bn)));
            at in v.disk && Contents(v, ino, LeafPos(bn)) == v.disk[at]
  {
    assert v.At(ino, LeafPos(bn)) in v.owner;
  }

  /** Copying the next m bytes, which stay inside one block. */
  lemma WriteChunk(geo: Geometry, v0: Volume, v: Volume, w: Volume, ino: nat, off: nat, src: seq<Byte>,
                   tot: nat, mapped: nat, m: nat)
    requires Good(geo, v) && Writing(v0, v, ino, off, src, tot, mapped)
    requires (off + tot) / 1024 < mapped <= MAXBN && v0.inodes[ino].size <= mapped * 1024
    requires tot + m <= |src| && (off + tot) % 1024 + m <= 1024
    requires var p := LeafPos((off + tot) / 1024);
             var blk := Patch(Contents(v, ino, p), (off + tot) % 1024, src[tot..tot + m]);
             w == v.(disk := v.disk[Abs(v.part, v.At(ino, p)) := blk])
    ensures Good(geo, w) && Writing(v0, w, ino, off, src, tot + m, mapped)
  {
    hide Good, Volume.At, Contents, LeafPos, Patch, OthersKept, Writing, MappedTo, FileByte;
    var x, s := off + tot, src[tot..tot + m];
    var p := LeafPos(x / 1024);
    ChunkEnd(x, m, mapped);
    WritingFacts(v0, v, ino, off, src, tot, mapped);
    WritingMapped(v0, v, ino, off, src, tot, mapped, x / 1024);
    DataWrite(geo, v, ino, p, Patch(Contents(v, ino, p), x % 1024, s));
    ChunkBytes(v, w, ino, x, s, mapped);
    ChunkSource(v, w, ino, off, src, tot, m, s, mapped * 1024);
    WriteMore(v0, v, w, ino, off, src, tot, mapped, m);
  }

  lemma WritingFacts(v0: Volume, v: Volume, ino: nat, off: nat, src: seq<Byte>, tot: nat, mapped: nat)
    requires Writing(v0, v, ino, off, src, tot, mapped)
    ensures ino in v.inodes && MappedTo(v, ino, mapped)
  {}

  lemma ChunkEnd(x: nat, m: nat, n: nat)
    requires x / 1024 < n && x % 1024 + m <= 1024
    ensures x + m <= n * 1024
  {}

  /** The bytes of the chunk are those of src. */
  lemma ChunkSource(v: Volume, w: Volume, ino: nat, off: nat, src: seq<Byte>, tot: nat, m: nat, s: seq<Byte>, n: nat)
    requires ino in v.inodes && ino in w.inodes && tot + m <= |src| && s == src[tot..tot + m]
    requires forall k :: 0 <= k < n ==>
               FileByte(w, ino, k) ==
               if off + tot <= k < off + tot + |s| then s[k - (off + tot)] else FileByte(v, ino, k)
    ensures forall k :: 0 <= k < n ==>
              FileByte(w, ino, k) == if off + tot <= k < off + tot + m then src[k - off] else FileByte(v, ino, k)
  {
    hide FileByte;
    forall k | 0 <= k < n
      ensures FileByte(w, ino, k) == if off + tot <= k < off + tot + m then src[k - off] else FileByte(v, ino, k)
    {
      if off + tot <= k < off + tot + m { SliceAt(src, tot, m, k - (off + tot)); }
    }
  }

  lemma SliceAt(src: seq<Byte>, tot: nat, m: nat, i: nat)
    requires tot + m <= |src| && i < m
    ensures src[tot..tot + m][i] == src[tot + i]
  {}

  lemma ChunkBytes(v: Volume, w: Volume, ino: nat, x: nat, s: seq<Byte>, mapped: nat)
    requires MappedTo(v, ino, mapped) && x / 1024 < mapped <= MAXBN && x % 1024 + |s| <= 1024
    requires ino in w.inodes
    requires forall q: Pos :: w.At(ino, q) == v.At(ino, q)
    requires forall q: Pos :: v.At(ino, q) != 0 ==>
               Contents(w, ino, q) == if q == LeafPos(x / 1024)
                                      then Patch(Contents(v, ino, LeafPos(x / 1024)), x % 1024, s)
                                      else Contents(v, ino, q)
    ensures forall k :: 0 <= k < mapped * 1024 ==>
              FileByte(w, ino, k) == if x <= k < x + |s| then s[k - x] else FileByte(v, ino, k)
  {
    hide Volume.At, Contents;
    forall k | 0 <= k < mapped * 1024
      ensures FileByte(w, ino, k) == if x <= k < x + |s| then s[k - x] else FileByte(v, ino, k)
    {
      assert v.At(ino, LeafPos(k / 1024)) != 0;
      ChunkByte(v, w, ino, x / 1024, Patch(Contents(v, ino, LeafPos(x / 1024)), x % 1024, s), k);
      ChunkRange(x, |s|, k);
    }
  }

  lemma ChunkByte(v: Volume, w: Volume, ino: nat, bn: nat, blk: Block, k: nat)
    requires ino in v.inodes && ino in w.inodes && bn < MAXBN && k / 1024 < MAXBN
    requires v.At(ino, LeafPos(k / 1024)) != 0
    requires forall q: Pos :: w.At(ino, q) == v.At(ino, q)
    requires forall q: Pos :: v.At(ino, q) != 0 ==>
               Contents(w, ino, q) == if q == LeafPos(bn) then blk else Contents(v, ino, q)
    ensures FileByte(w, ino, k) == if k / 1024 == bn then blk[k % 1024] else FileByte(v, ino, k)
  {
    hide Volume.At, Contents, LeafPos;
    if k / 1024 != bn { LeafDiffer(k / 1024, bn); }
  }

  lemma ChunkRange(x: nat, m: nat, k: nat)
    requires x % 1024 + m <= 1024
    ensures x <= k < x + m <==> k / 1024 == x / 1024 && x % 1024 <= k % 1024 < x % 1024 + m
    ensures x <= k < x + m ==> k % 1024 - x % 1024 == k - x
  {}

  lemma WriteMore(v0: Volume, v: Volume, w: Volume, ino: nat, off: nat, src: seq<Byte>, tot: nat, mapped: nat, m: nat)
    requires Writing(v0, v, ino, off, src, tot, mapped)
    requires tot + m <= |src| && off + tot + m <= mapped * 1024 && mapped <= MAXBN
    requires v0.inodes[ino].size <= mapped * 1024
    requires w == v.(disk := w.disk)
    requires forall j, q: Pos :: j in v.inodes ==> w.At(j, q) == v.At(j, q)
    requires forall j, q: Pos :: j in v.inodes && j != ino && v.At(j, q) != 0 ==> Contents(w, j, q) == Contents(v, j, q)
    requires forall k :: 0 <= k < mapped * 1024 ==>
               FileByte(w, ino, k) == if off + tot <= k < off + tot + m then src[k - off] else FileByte(v, ino, k)
    ensures Writing(v0, w, ino, off, src, tot + m, mapped)
  {}

  lemma WritingMapped(v0: Volume, v: Volume, ino: nat, off: nat, src: seq<Byte>, tot: nat, mapped: nat, bn: nat)
    requires Writing(v0, v, ino, off, src, tot, mapped) && bn < MAXBN && bn < mapped
    ensures v.At(ino, LeafPos(bn)) != 0
  {}

  lemma GoodSize(geo: Geometry, v: Volume, ino: nat, ip: Inode)
    requires Good(geo, v) && ino in v.inodes && ip.addrs == v.inodes[ino].addrs
    ensures Good(geo, v.(inodes := v.inodes[ino := ip]))
  {
    SameAddrsAt(v, ino, ip);
    AddrsBitmaps(geo, v, v.inodes[ino := ip]);
  }

  /** What ext2fs_writei promises when it accepts a write. */
  ghost predicate Written(v0: Volume, v: Volume, ino: nat, off: nat, src: seq<Byte>) {
    && ino in v0.inodes && off <= v0.inodes[ino].size && v.inodes.Keys == v0.inodes.Keys
    && v.inodes[ino] == v0.inodes[ino].(size := v.inodes[ino].size, addrs := v.inodes[ino].addrs)
    && Content(v, ino) == Splice(Content(v0, ino), off, src)
    && (forall j :: j in v0.inodes && j != ino ==> v.inodes[j] == v0.inodes[j] && Content(v, j) == Content(v0, j))
  }

  /** The finished write, with the new size, is a splice and nothing else. */
  lemma FinishWrite(geo: Geometry, v0: Volume, v: Volume, ino: nat, off: nat, src: seq<Byte>, mapped: nat, ip: Inode)
    requires Good(geo, v) && Files(v0) && Writing(v0, v, ino, off, src, |src|, mapped)
    requires ip == v.inodes[ino].(size := ip.size) && ip.size == Max(v0.inodes[ino].size, off + |src|)
    requires mapped == Blocks(ip.size) && ip.size <= MAXBN * 1024
    ensures var w := v.(inodes := v.inodes[ino := ip]);
            Good(geo, w) && Files(w) && Written(v0, w, ino, off, src)
  {
    var w := v.(inodes := v.inodes[ino := ip]);
    SameAddrsAt(v, ino, ip);
    FinishBytes(v0, v, w, ino, off, src, mapped);
    FinishOthers(v0, v, w, ino);
    GoodSize(geo, v, ino, ip);
  }

  lemma FinishBytes(v0: Volume, v: Volume, w: Volume, ino: nat, off: nat, src: seq<Byte>, mapped: nat)
    requires Writing(v0, v, ino, off, src, |src|, mapped)
    requires ino in w.inodes && w.inodes[ino].size == Max(v0.inodes[ino].size, off + |src|)
    requires forall q: Pos :: Contents(w, ino, q) == Contents(v, ino, q)
    ensures Content(w, ino) == Splice(Content(v0, ino), off, src)
  {
    forall k | 0 <= k < w.inodes[ino].size
      ensures FileByte(w, ino, k) == Splice(Content(v0, ino), off, src)[k]
    {
      assert FileByte(w, ino, k) == FileByte(v, ino, k);
    }
  }

  lemma FinishOthers(v0: Volume, v: Volume, w: Volume, ino: nat)
    requires Files(v0) && ino in v0.inodes && OthersKept(v0, v, ino)
    requires ino in w.inodes && w == v.(inodes := v.inodes[ino := w.inodes[ino]])
    requires forall j, q: Pos :: j in v.inodes ==> w.At(j, q) == v.At(j, q) && Contents(w, j, q) == Contents(v, j, q)
    requires w.inodes[ino].size <= MAXBN * 1024 && MappedTo(v, ino, Blocks(w.inodes[ino].size))
    ensures Files(w)
    ensures forall j :: j in v0.inodes && j != ino ==> Content(w, j) == Content(v0, j)
  {
    assert OthersKept(v0, w, ino);
    forall j | j in v0.inodes && j != ino
      ensures Content(w, j) == Content(v0, j) && MappedTo(w, j, Blocks(w.inodes[j].size))
    {
      OtherContent(v0, w, ino, j);
    }
  }

  // ---- truncation and creation ----

  lemma EmptiedOthers(v0: Volume, v: Volume, ino: nat)
    requires Files(v0) && Emptied(v0, v, ino)
    ensures forall j :: j in v0.inodes && j != ino ==> Content(v, j) == Content(v0, j)
  {
    assert OthersKept(v0, v, ino);
    forall j | j in v0.inodes && j != ino ensures Content(v, j) == Content(v0, j) {
      OtherContent(v0, v, ino, j);
    }
  }

  lemma EmptiedFiles(v0: Volume, v: Volume, ino: nat)
    requires Files(v0) && Emptied(v0, v, ino) && v.inodes[ino].size == 0
    ensures Files(v)
  {
    assert OthersKept(v0, v, ino);
    forall j | j in v.inodes
      ensures v.inodes[j].size <= MAXBN * 1024 && MappedTo(v, j, Blocks(v.inodes[j].size))
    {
      if j != ino { OtherContent(v0, v, ino, j); }
    }
  }

  /** An inode without blocks disturbs nobody. */
  lemma FreshInode(geo: Geometry, v: Volume, ino: nat, ip: Inode)
    requires Good(geo, v) && Files(v) && ino !in v.inodes && geo.GroupOfInode(ino) < |geo.bitmaps|
    requires ip.size == 0 && ip.addrs == NOADDRS
    ensures var w := v.(inodes := v.inodes[ino := ip]);
            && Good(geo, w) && Files(w) && Content(w, ino) == []
            && forall j :: j in v.inodes ==> Content(w, j) == Content(v, j)
  {
    hide Volume.At, Contents, BitmapsAgree, Files;
    var w := v.(inodes := v.inodes[ino := ip]);
    FreshAt(v, ino, ip);
    FreshOwned(v, w, ino);
    AddrsBitmaps(geo, v, w.inodes);
    FreshFiles(v, w, ino);
  }

  lemma FreshAt(v: Volume, ino: nat, ip: Inode)
    requires ino !in v.inodes && ip.addrs == NOADDRS
    ensures var w := v.(inodes := v.inodes[ino := ip]);
            && (forall j, q: Pos :: j in v.inodes ==>
                  w.At(j, q) == v.At(j, q) && Contents(w, j, q) == Contents(v, j, q))
            && (forall q: Pos :: w.At(ino, q) == 0)
  {
    var w := v.(inodes := v.inodes[ino := ip]);
    forall q: Pos ensures w.At(ino, q) == 0 { EmptyTree(w, ino, q); }
  }

  lemma FreshOwned(v: Volume, w: Volume, ino: nat)
    requires v.Owned() && ino !in v.inodes && w == v.(inodes := w.inodes) && w.inodes.Keys == v.inodes.Keys + {ino}
    requires forall j, q: Pos :: j in v.inodes ==> w.At(j, q) == v.At(j, q)
    requires forall q: Pos :: w.At(ino, q) == 0
    ensures w.Owned()
  {
    hide Volume.At;
  }

  lemma GeoValid(geo: Geometry, v: Volume)
    requires Good(geo, v)
    ensures geo.Valid()
  {}

  lemma GoodGroup(geo: Geometry, v: Volume, ino: nat)
    requires Good(geo, v) && ino in v.inodes
    ensures geo.Valid() && 0 < ino && geo.GroupOfInode(ino) < |geo.bitmaps|
  {}

  /** Neither does removing one. */
  lemma GoneInode(geo: Geometry, v: Volume, ino: nat)
    requires Good(geo, v) && Files(v) && ino in v.inodes && v.inodes[ino].addrs == NOADDRS
    ensures var w := v.(inodes := v.inodes - {ino});
            && Good(geo, w) && Files(w)
            && forall j :: j in w.inodes ==> Content(w, j) == Content(v, j)
  {
    hide Volume.At, Contents, BitmapsAgree, Files, Content;
    var w := v.(inodes := v.inodes - {ino});
    GoneAt(v, ino);
    GoneOwned(v, w, ino);
    AddrsBitmaps(geo, v, w.inodes);
    GoneFiles(v, w, ino);
  }

  lemma GoneAt(v: Volume, ino: nat)
    requires ino in v.inodes && v.inodes[ino].addrs == NOADDRS
    ensures var w := v.(inodes := v.inodes - {ino});
            && (forall j, q: Pos :: j in w.inodes ==>
                  w.At(j, q) == v.At(j, q) && Contents(w, j, q) == Contents(v, j, q))
            && (forall q: Pos :: v.At(ino, q) == 0)
  {
    forall q: Pos ensures v.At(ino, q) == 0 { EmptyTree(v, ino, q); }
  }

  lemma GoneOwned(v: Volume, w: Volume, ino: nat)
    requires v.Owned() && w == v.(inodes := v.inodes - {ino})
    requires forall j, q: Pos :: j in w.inodes ==> w.At(j, q) == v.At(j, q)
    requires ino in v.inodes && forall q: Pos :: v.At(ino, q) == 0
    ensures w.Owned()
  {
    hide Volume.At;
  }

  lemma GoneFiles(v: Volume, w: Volume, ino: nat)
    requires Files(v) && w == v.(inodes := v.inodes - {ino})
    requires forall j, q: Pos :: j in w.inodes ==> w.At(j, q) == v.At(j, q) && Contents(w, j, q) == Contents(v, j, q)
    ensures Files(w) && forall j :: j in w.inodes ==> Content(w, j) == Content(v, j)
  {
    hide Volume.At, Contents;
    forall j | j in w.inodes ensures Content(w, j) == Content(v, j) && MappedTo(w, j, Blocks(w.inodes[j].size)) {
      forall k | 0 <= k < w.inodes[j].size ensures FileByte(w, j, k) == FileByte(v, j, k) {}
    }
  }

  lemma FreshFiles(v: Volume, w: Volume, ino: nat)
    requires Files(v) && ino !in v.inodes && w.inodes.Keys == v.inodes.Keys + {ino} && w.inodes[ino].size == 0
    requires forall j :: j in v.inodes ==> w.inodes[j] == v.inodes[j]
    requires forall j, q: Pos :: j in v.inodes ==> w.At(j, q) == v.At(j, q) && Contents(w, j, q) == Contents(v, j, q)
    requires forall q: Pos :: w.At(ino, q) == 0
    ensures Files(w) && forall j :: j in v.inodes ==> Content(w, j) == Content(v, j)
  {
    forall j | j in v.inodes ensures Content(w, j) == Content(v, j) && MappedTo(w, j, Blocks(w.inodes[j].size)) {
      forall k | 0 <= k < w.inodes[j].size ensures FileByte(w, j, k) == FileByte(v, j, k) {}
    }
  }
}
