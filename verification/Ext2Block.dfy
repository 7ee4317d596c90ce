/** Blocks of bytes as ext2.c sees them: little-endian 32-bit words in an
    index block, single bits in an allocation bitmap. */
module Ext2Block {
  import opened Basics

  const BSIZE := 1024
  const WORDS := 256

  type Block = b: seq<Byte> | |b| == 1024 witness seq(1024, _ => 0)

  function ZeroBlock(): (b: Block)
    ensures forall i :: 0 <= i < BSIZE ==> b[i] == 0
  {
    seq(1024, _ => 0)
  }

  // ---- 32-bit words ----

  function LittleEndian(b0: Byte, b1: Byte, b2: Byte, b3: Byte): Word {
    b0 + 0x100 * b1 + 0x1_0000 * b2 + 0x100_0000 * b3
  }

  function WordBytes(v: Word): (r: seq<Byte>)
    ensures |r| == 4
    ensures LittleEndian(r[0], r[1], r[2], r[3]) == v
  {
    var v1 := v / 0x100;
    var v2 := v1 / 0x100;
    [v % 0x100, v1 % 0x100, v2 % 0x100, v2 / 0x100]
  }

  function GetWord(b: Block, i: nat): Word
    requires i < WORDS
  {
    LittleEndian(b[4 * i], b[4 * i + 1], b[4 * i + 2], b[4 * i + 3])
  }

  function SetWord(b: Block, i: nat, v: Word): Block
    requires i < WORDS
  {
    var w := WordBytes(v);
    b[4 * i := w[0]][4 * i + 1 := w[1]][4 * i + 2 := w[2]][4 * i + 3 := w[3]]
  }

  lemma SetWordGetWord(b: Block, i: nat, v: Word, j: nat)
    requires i < WORDS && j < WORDS
    ensures GetWord(SetWord(b, i, v), j) == if i == j then v else GetWord(b, j)
  {
    var s := SetWord(b, i, v);
    if i != j {
      assert s[4 * j] == b[4 * j] && s[4 * j + 1] == b[4 * j + 1];
      assert s[4 * j + 2] == b[4 * j + 2] && s[4 * j + 3] == b[4 * j + 3];
    }
  }

  /** Words are stored lowest byte first. */
  lemma WordDigits(b: Block, i: nat)
    requires i < WORDS
    ensures b[4 * i] == GetWord(b, i) % 0x100
    ensures b[4 * i + 1] == GetWord(b, i) / 0x100 % 0x100
    ensures b[4 * i + 2] == GetWord(b, i) / 0x100 / 0x100 % 0x100
    ensures b[4 * i + 3] == GetWord(b, i) / 0x100 / 0x100 / 0x100
  {
    var b0: int, b1: int, b2: int, b3: int := b[4 * i], b[4 * i + 1], b[4 * i + 2], b[4 * i + 3];
    LowDigit(b0, b1 + 0x100 * b2 + 0x1_0000 * b3);
    LowDigit(b1, b2 + 0x100 * b3);
    LowDigit(b2, b3);
  }

  lemma LowDigit(lo: Byte, hi: nat)
    ensures (lo + 0x100 * hi) % 0x100 == lo && (lo + 0x100 * hi) / 0x100 == hi
  {}

  lemma ZeroWords(i: nat)
    requires i < WORDS
    ensures GetWord(ZeroBlock(), i) == 0
  {}

  // ---- single bits ----

  /** bitmap[i] & (1 << j) is non-zero: the lowest digit of x >> j. */
  predicate TestBit(x: nat, j: nat) {
    if j == 0 then x % 2 == 1 else TestBit(x / 2, j - 1)
  }

  /** The digit of weight 2^j. */
  lemma {:induction false} TestBitDigit(x: nat, j: nat)
    ensures TestBit(x, j) <==> x / Pow2(j) % 2 == 1
  {
    if j > 0 {
      TestBitDigit(x / 2, j - 1);
      HalfDivides(x, Pow2(j - 1));
    }
  }

  lemma HalfDivides(x: nat, p: nat)
    requires p > 0
    ensures x / 2 / p == x / (2 * p)
  {
    var q := x / (2 * p);
    DivisionIff(x, 2 * p, q);
    DivisionIff(x / 2, p, q);
    assert q * (2 * p) == 2 * (q * p);
  }

  /** x with binary digit j switched on (bitmap[i] | mask) or off (bitmap[i] & ~mask). */
  function WithBit(x: nat, j: nat, on: bool): nat {
    if j == 0 then x - x % 2 + (if on then 1 else 0)
    else 2 * WithBit(x / 2, j - 1, on) + x % 2
  }

  lemma {:induction false} WithBitTestBit(x: nat, j: nat, on: bool, k: nat)
    ensures TestBit(WithBit(x, j, on), k) == if j == k then on else TestBit(x, k)
  {
    WithBitHalves(x, j, on);
    TestBitHalves(x, k);
    TestBitHalves(WithBit(x, j, on), k);
    hide WithBit, TestBit;
    if j != 0 && k != 0 {
      WithBitTestBit(x / 2, j - 1, on, k - 1);
    }
  }

  /** The lowest digit and the others after a write. */
  lemma WithBitHalves(x: nat, j: nat, on: bool)
    ensures WithBit(x, j, on) % 2 == if j == 0 then (if on then 1 else 0) else x % 2
    ensures WithBit(x, j, on) / 2 == if j == 0 then x / 2 else WithBit(x / 2, j - 1, on)
  {}

  lemma TestBitHalves(x: nat, k: nat)
    ensures TestBit(x, k) <==> if k == 0 then x % 2 == 1 else TestBit(x / 2, k - 1)
  {}

  lemma HalfRange(x: nat, p: nat)
    ensures x < 2 * p <==> x / 2 < p
    ensures x == 2 * (x / 2) + x % 2
  {}

  lemma {:induction false} WithBitRange(x: nat, j: nat, on: bool, m: nat)
    requires j < m && x < Pow2(m)
    ensures WithBit(x, j, on) < Pow2(m)
  {
    HalfRange(x, Pow2(m - 1));
    if j != 0 {
      WithBitRange(x / 2, j - 1, on, m - 1);
      HalfRange(WithBit(x, j, on), Pow2(m - 1));
    } else {
      HalfRange(WithBit(x, 0, on), Pow2(m - 1));
    }
  }

  function ByteWithBit(x: Byte, j: nat, on: bool): Byte
    requires j < 8
  {
    assert Pow2(8) == 256;
    WithBitRange(x, j, on, 8);
    WithBit(x, j, on)
  }

  predicate BlockBit(b: Block, k: nat)
    requires k < 8192
  {
    TestBit(b[k / 8], k % 8)
  }

  function SetBlockBit(b: Block, k: nat, on: bool): (r: Block)
    requires k < 8192
    ensures forall l :: 0 <= l < 8192 ==> BlockBit(r, l) == if l == k then on else BlockBit(b, l)
  {
    var r := b[k / 8 := ByteWithBit(b[k / 8], k % 8, on)];
    assert forall l :: 0 <= l < 8192 ==> BlockBit(r, l) == if l == k then on else BlockBit(b, l) by {
      forall l | 0 <= l < 8192
        ensures BlockBit(r, l) == if l == k then on else BlockBit(b, l)
      {
        if l / 8 == k / 8 {
          WithBitTestBit(b[k / 8], k % 8, on, l % 8);
        }
      }
    }
    r
  }

  /** ext2fs_get_free_bit: the lowest clear bit below nbits is set and returned. */
  method GetFreeBit(bitmap: Block, nbits: nat) returns (bit: int, after: Block)
    ensures bit == -1 || 0 <= bit < nbits
    ensures bit == -1 ==> after == bitmap && forall k :: 0 <= k < nbits && k < 8192 ==> BlockBit(bitmap, k)
    ensures bit != -1 ==>
              && bit < 8192 && !BlockBit(bitmap, bit)
              && after == SetBlockBit(bitmap, bit, true)
              && forall k :: 0 <= k < bit ==> BlockBit(bitmap, k)
  {
    var bytes := (nbits + 7) / 8;
    var i := 0;
    while i < bytes && i < BSIZE
      invariant 0 <= i <= BSIZE
      invariant forall k :: 0 <= k < 8 * i && k < nbits ==> BlockBit(bitmap, k)
    {
      var j := 0;
      while j < 8
        invariant 0 <= j <= 8
        invariant forall k :: 0 <= k < 8 * i + j && k < nbits ==> BlockBit(bitmap, k)
      {
        var b := i * 8 + j;
        if b >= nbits { break; }
        assert b / 8 == i && b % 8 == j;
        if !TestBit(bitmap[i], j) {
          return b, bitmap[i := ByteWithBit(bitmap[i], j, true)];
        }
        j := j + 1;
      }
      i := i + 1;
    }
    return -1, bitmap;
  }
}
