/** Directory contents: a chain of records that tiles the file, read as a map from names
    to inode numbers. */
module Ext2DirFormat {
  import opened Basics
  import opened Ext2Block
  import opened Ext2File

  type Bytes = seq<Byte>

  const NAME_LEN: nat := 255   // EXT2_NAME_LEN

  /** A record: where it starts, and the fields of struct ext2_dir_entry_2. */
  datatype Entry = Entry(off: nat, inode: Word, recLen: nat, name: Bytes)

  predicate Header(c: Bytes, off: nat) { off + 8 <= |c| }

  function InodeAt(c: Bytes, off: nat): Word
    requires Header(c, off)
  {
    LittleEndian(c[off], c[off + 1], c[off + 2], c[off + 3])
  }

  function Short16(lo: Byte, hi: Byte): nat {
    (lo as int) + 0x100 * (hi as int)
  }

  function RecLenAt(c: Bytes, off: nat): nat
    requires Header(c, off)
  {
    Short16(c[off + 4], c[off + 5])
  }

  function NameLenAt(c: Bytes, off: nat): nat
    requires Header(c, off)
  {
    c[off + 6]
  }

  /** The record at off: a legal length, and room for the name inside it. */
  predicate RecordAt(c: Bytes, off: nat) {
    && Header(c, off)
    && 8 + NameLenAt(c, off) <= RecLenAt(c, off) <= 1024
    && off + RecLenAt(c, off) <= |c|
  }

  function EntryAt(c: Bytes, off: nat): Entry
    requires RecordAt(c, off)
  {
    Entry(off, InodeAt(c, off), RecLenAt(c, off), c[off + 8..off + 8 + NameLenAt(c, off)])
  }

  /** The chain of records from off reaches the end of the directory exactly. */
  predicate Tiled(c: Bytes, off: nat)
    decreases |c| - off
  {
    off == |c| || (RecordAt(c, off) && Tiled(c, off + RecLenAt(c, off)))
  }

  function Entries(c: Bytes, off: nat): (es: seq<Entry>)
    requires Tiled(c, off)
    ensures forall i :: 0 <= i < |es| ==> off <= es[i].off && RecordAt(c, es[i].off) && es[i] == EntryAt(c, es[i].off)
    ensures forall i, j :: 0 <= i < j < |es| ==> es[i].off + es[i].recLen <= es[j].off
    decreases |c| - off
  {
    if off == |c| then [] else [EntryAt(c, off)] + Entries(c, off + RecLenAt(c, off))
  }

  /** What a lookup of `name` can see: a live record with that name. */
  predicate Hit(e: Entry, name: Bytes) { e.inode != 0 && e.name == name }

  /** At most one live record per name, and names hold no NUL. */
  predicate Distinct(es: seq<Entry>) {
    && (forall i :: 0 <= i < |es| && es[i].inode != 0 ==> 0 !in es[i].name)
    && (forall i, j :: 0 <= i < j < |es| && es[i].inode != 0 && es[j].inode != 0 ==> es[i].name != es[j].name)
  }

  predicate IsDirectory(c: Bytes) { Tiled(c, 0) && Distinct(Entries(c, 0)) }

  /** The directory as a map: the inode number of each live record under its name. */
  function Names(es: seq<Entry>): map<Bytes, Word>
    requires Distinct(es)
  {
    map e | e in es && e.inode != 0 :: e.name := e.inode
  }

  lemma NameOf(es: seq<Entry>, e: Entry)
    requires Distinct(es) && e in es && e.inode != 0
    ensures e.name in Names(es) && Names(es)[e.name] == e.inode
  {}

  lemma NameEntry(es: seq<Entry>, n: Bytes) returns (i: nat)
    requires Distinct(es) && n in Names(es)
    ensures i < |es| && es[i].inode != 0 && es[i].name == n && Names(es)[n] == es[i].inode
  {
    var e :| e in es && e.inode != 0 && e.name == n;
    i :| 0 <= i < |es| && es[i] == e;
  }

  function DirMap(c: Bytes): map<Bytes, Word>
    requires IsDirectory(c)
  {
    Names(Entries(c, 0))
  }

  /** ext2fs_dirlookup from off on: the first live record with that name. */
  function Find(c: Bytes, off: nat, name: Bytes): (r: Option<Entry>)
    requires Tiled(c, off)
    ensures r.Some? ==> Hit(r.value, name) && r.value in Entries(c, off)
    ensures r.None? ==> forall e :: e in Entries(c, off) ==> !Hit(e, name)
    decreases |c| - off
  {
    if off == |c| then None
    else if Hit(EntryAt(c, off), name) then Some(EntryAt(c, off))
    else Find(c, off + RecLenAt(c, off), name)
  }

  /** Find is the map: it finds a name exactly when the map has it, and the inode number
      there. */
  lemma FindIsMap(c: Bytes, name: Bytes)
    requires IsDirectory(c)
    ensures Find(c, 0, name).Some? <==> name in DirMap(c)
    ensures Find(c, 0, name).Some? ==> DirMap(c)[name] == Find(c, 0, name).value.inode
  {
    var es := Entries(c, 0);
    var r := Find(c, 0, name);
    if r.Some? { NameOf(es, r.value); }
  }

  /** What the bytes of a found record are. */
  lemma FoundBytes(c: Bytes, off: nat, name: Bytes)
    requires Tiled(c, off) && Find(c, off, name).Some?
    ensures var e := Find(c, off, name).value;
            e.off + 8 + |name| <= |c| && c[e.off + 6] as int == |name| && c[e.off + 8..e.off + 8 + |name|] == name
    ensures var e := Find(c, off, name).value;
            0 < e.inode == c[e.off] as int + 0x100 * c[e.off + 1] as int
                           + 0x1_0000 * c[e.off + 2] as int + 0x100_0000 * c[e.off + 3] as int
  {
    var e := Find(c, off, name).value;
    assert e in Entries(c, off);
    assert RecordAt(c, e.off) && e == EntryAt(c, e.off);
    hide Find, Entries, Tiled;
    RecordBytes(c, e.off);
  }

  lemma RecordBytes(c: Bytes, off: nat)
    requires RecordAt(c, off)
    ensures var e := EntryAt(c, off);
            && off + 8 + |e.name| <= |c| && c[off + 6] as int == |e.name| && c[off + 8..off + 8 + |e.name|] == e.name
            && e.inode == c[off] as int + 0x100 * c[off + 1] as int
                          + 0x1_0000 * c[off + 2] as int + 0x100_0000 * c[off + 3] as int
            && e.recLen == c[off + 4] as int + 0x100 * c[off + 5] as int
  {}

  // ---- appending ----

  /** ext2_dirent_size: the header and the name, rounded up to four bytes. */
  function DirentSize(nameLen: nat): (r: nat)
    ensures 8 + nameLen <= r < 8 + nameLen + 4 && r % 4 == 0
  {
    (8 + nameLen + 3) / 4 * 4
  }

  /** The bytes of struct ext2_dir_entry_2 that ext2fs_dirlink writes. */
  function Record(inum: Word, name: Bytes): (r: Bytes)
    requires |name| <= NAME_LEN
    ensures |r| == DirentSize(|name|)
    ensures InodeAt(r, 0) == inum && RecLenAt(r, 0) == |r| && NameLenAt(r, 0) == |name|
    ensures r[8..8 + |name|] == name
  {
    var n := DirentSize(|name|);
    WordBytes(inum) + [n % 256, n / 256, |name|, 0] + name + seq(n - 8 - |name|, _ => 0)
  }

  /** Byte by byte: inode number and lengths lowest byte first, file type 0, the name, zeros. */
  lemma RecordFormat(inum: Word, name: Bytes)
    requires |name| <= NAME_LEN
    ensures var r := Record(inum, name);
            && inum == r[0] as int + 0x100 * r[1] as int + 0x1_0000 * r[2] as int + 0x100_0000 * r[3] as int
            && r[4] as int + 0x100 * r[5] as int == |r| && r[6] as int == |name| && r[7] == 0
            && r[8..8 + |name|] == name && forall k :: 8 + |name| <= k < |r| ==> r[k] == 0
  {}

  lemma {:induction false} AppendTiled(c: Bytes, off: nat, inum: Word, name: Bytes)
    requires Tiled(c, off) && |name| <= NAME_LEN
    ensures Tiled(c + Record(inum, name), off)
    ensures Entries(c + Record(inum, name), off)
         == Entries(c, off) + [Entry(|c|, inum, DirentSize(|name|), name)]
    decreases |c| - off
  {
    var d := c + Record(inum, name);
    if off == |c| {
      AppendLast(c, inum, name);
    } else {
      AppendTiled(c, off + RecLenAt(c, off), inum, name);
      AppendKeeps(c, off, Record(inum, name));
      EntriesFrom(d, off);
    }
  }

  lemma AppendKeeps(c: Bytes, off: nat, rec: Bytes)
    requires RecordAt(c, off)
    ensures RecordAt(c + rec, off) && EntryAt(c + rec, off) == EntryAt(c, off)
    ensures RecLenAt(c + rec, off) == RecLenAt(c, off)
  {
    var d := c + rec;
    var h := off + 8 + NameLenAt(c, off);
    assert d[off..h] == c[off..h];
    RecordMoved(c, off, d, off);
  }

  /** A record is determined by its header and name bytes, wherever they stand. */
  lemma RecordMoved(c: Bytes, x: nat, d: Bytes, y: nat)
    requires RecordAt(c, x) && y + RecLenAt(c, x) <= |d|
    requires var h := 8 + NameLenAt(c, x); d[y..y + h] == c[x..x + h]
    ensures RecordAt(d, y) && EntryAt(d, y) == EntryAt(c, x).(off := y)
  {
    var h := 8 + NameLenAt(c, x);
    var u, v := d[y..y + h], c[x..x + h];
    assert u[0] == d[y] && u[1] == d[y + 1] && u[2] == d[y + 2] && u[3] == d[y + 3];
    assert u[4] == d[y + 4] && u[5] == d[y + 5] && u[6] == d[y + 6];
    assert v[0] == c[x] && v[1] == c[x + 1] && v[2] == c[x + 2] && v[3] == c[x + 3];
    assert v[4] == c[x + 4] && v[5] == c[x + 5] && v[6] == c[x + 6];
    assert d[y + 8..y + h] == u[8..] && c[x + 8..x + h] == v[8..];
  }

  lemma RecordEntry(inum: Word, name: Bytes)
    requires |name| <= NAME_LEN
    ensures RecordAt(Record(inum, name), 0)
    ensures EntryAt(Record(inum, name), 0) == Entry(0, inum, DirentSize(|name|), name)
  {
    assert RecordAt(Record(inum, name), 0);
  }

  lemma LastRecord(d: Bytes, off: nat)
    requires RecordAt(d, off) && off + RecLenAt(d, off) == |d|
    ensures Tiled(d, off) && Entries(d, off) == [EntryAt(d, off)]
  {
    assert Tiled(d, |d|) && Entries(d, |d|) == [];
  }

  lemma AppendLast(c: Bytes, inum: Word, name: Bytes)
    requires |name| <= NAME_LEN
    ensures Tiled(c + Record(inum, name), |c|)
    ensures Entries(c + Record(inum, name), |c|) == [Entry(|c|, inum, DirentSize(|name|), name)]
  {
    hide Record, DirentSize, RecordAt, EntryAt, RecLenAt, NameLenAt, Entries, Tiled;
    var rec := Record(inum, name);
    var d := c + rec;
    RecordEntry(inum, name);
    EntryFields(rec, 0);
    assert d[|c|..|c| + 8 + |name|] == rec[0..8 + |name|];
    RecordMoved(rec, 0, d, |c|);
    EntryFields(d, |c|);
    LastRecord(d, |c|);
  }

  lemma EntryFields(c: Bytes, off: nat)
    requires RecordAt(c, off)
    ensures EntryAt(c, off).recLen == RecLenAt(c, off) && |EntryAt(c, off).name| == NameLenAt(c, off)
    ensures EntryAt(c, off).off == off
  {}

  /** Linking a name that is not there adds exactly that name. */
  lemma AppendMap(c: Bytes, inum: Word, name: Bytes)
    requires IsDirectory(c) && |name| <= NAME_LEN && 0 !in name && inum != 0
    requires Find(c, 0, name).None?
    ensures var d := c + Record(inum, name);
            IsDirectory(d) && DirMap(d) == DirMap(c)[name := inum]
  {
    AppendTiled(c, 0, inum, name);
    AppendNames(Entries(c, 0), Entry(|c|, inum, DirentSize(|name|), name));
  }

  lemma AppendNames(es: seq<Entry>, e: Entry)
    requires Distinct(es) && e.inode != 0 && 0 !in e.name
    requires forall x :: x in es ==> !Hit(x, e.name)
    ensures Distinct(es + [e]) && Names(es + [e]) == Names(es)[e.name := e.inode]
  {
    hide Names, Distinct;
    var fs := es + [e];
    AppendDistinct(es, e);
    assert e in fs;
    NameOf(fs, e);
    var m, w := Names(es), Names(fs);
    forall n | n in w ensures n == e.name || (n in m && w[n] == m[n]) {
      var i := NameEntry(fs, n);
      if i < |es| { NameOf(es, es[i]); }
    }
    forall n | n in m ensures n in w && n != e.name {
      var i := NameEntry(es, n);
      assert es[i] in es && !Hit(es[i], e.name);
      assert es[i] in fs;
      NameOf(fs, es[i]);
    }
    assert w == m[e.name := e.inode];
  }

  lemma AppendDistinct(es: seq<Entry>, e: Entry)
    requires Distinct(es) && e.inode != 0 && 0 !in e.name
    requires forall x :: x in es ==> !Hit(x, e.name)
    ensures Distinct(es + [e])
  {
    forall i | 0 <= i < |es| && es[i].inode != 0 ensures es[i].name != e.name {
      assert es[i] in es && !Hit(es[i], e.name);
    }
  }

  // ---- clearing ----

  /** The write of sys_unlink: the inode number of the record at off becomes 0. */
  function Clear(c: Bytes, off: nat): Bytes
    requires off + 4 <= |c|
  {
    Splice(c, off, [0, 0, 0, 0])
  }

  function Cleared(es: seq<Entry>, off: nat): (r: seq<Entry>)
    ensures |r| == |es|
    ensures forall i :: 0 <= i < |es| ==> r[i] == if es[i].off == off then es[i].(inode := 0) else es[i]
  {
    seq(|es|, i requires 0 <= i < |es| => if es[i].off == off then es[i].(inode := 0) else es[i])
  }

  lemma EntriesFrom(c: Bytes, off: nat)
    requires RecordAt(c, off) && Tiled(c, off + RecLenAt(c, off))
    ensures Tiled(c, off) && Entries(c, off) == [EntryAt(c, off)] + Entries(c, off + RecLenAt(c, off))
  {}

  lemma ClearedRest(e: Entry, es: seq<Entry>, at: nat)
    requires e.off != at
    ensures Cleared([e] + es, at) == [e] + Cleared(es, at)
  {}

  lemma ClearedFirst(c: Bytes, off: nat)
    requires RecordAt(c, off) && Tiled(c, off + RecLenAt(c, off))
    ensures Cleared([EntryAt(c, off)] + Entries(c, off + RecLenAt(c, off)), off)
         == [EntryAt(c, off).(inode := 0)] + Entries(c, off + RecLenAt(c, off))
  {}

  /** The record being cleared is the first one or lies in the rest of the chain. */
  lemma TiledStep(c: Bytes, off: nat, at: nat)
    requires Tiled(c, off) && exists e :: e in Entries(c, off) && e.off == at
    ensures RecordAt(c, off) && Tiled(c, off + RecLenAt(c, off))
    ensures Entries(c, off) == [EntryAt(c, off)] + Entries(c, off + RecLenAt(c, off))
    ensures EntryAt(c, off).off == off
    ensures off != at ==>
              off + RecLenAt(c, off) <= at && exists e :: e in Entries(c, off + RecLenAt(c, off)) && e.off == at
  {
    var e :| e in Entries(c, off) && e.off == at;
    assert off != at ==> e in Entries(c, off + RecLenAt(c, off));
  }

  lemma {:induction false} ClearTiled(c: Bytes, off: nat, at: nat)
    requires Tiled(c, off) && RecordAt(c, at)
    requires exists e :: e in Entries(c, off) && e.off == at
    ensures Tiled(Clear(c, at), off)
    ensures Entries(Clear(c, at), off) == Cleared(Entries(c, off), at)
    decreases |c| - off
  {
    hide Clear, EntryAt, RecordAt, RecLenAt, Cleared, Tiled, Entries;
    EntryHeader(c, at);
    TiledStep(c, off, at);
    var next := off + RecLenAt(c, off);
    var d := Clear(c, at);
    ClearBytes(c, at);
    if off == at {
      ClearedHere(c, at);
      ClearTail(c, next, at);
      EntriesFrom(d, off);
      ClearedFirst(c, off);
    } else {
      ClearedOther(c, off, at);
      ClearTiled(c, next, at);
      EntriesFrom(d, off);
      ClearedRest(EntryAt(c, off), Entries(c, next), at);
    }
  }

  lemma ClearBytes(c: Bytes, at: nat)
    requires at + 4 <= |c|
    ensures var d := Clear(c, at);
            && |d| == |c|
            && d[at] == 0 && d[at + 1] == 0 && d[at + 2] == 0 && d[at + 3] == 0
            && (forall k :: 0 <= k < |c| && !(at <= k < at + 4) ==> d[k] == c[k])
  {}

  lemma ClearedHere(c: Bytes, at: nat)
    requires RecordAt(c, at)
    ensures var d := Clear(c, at);
            && |d| == |c| && RecordAt(d, at) && RecLenAt(d, at) == RecLenAt(c, at)
            && EntryAt(d, at) == EntryAt(c, at).(inode := 0)
  {
    hide Clear, InodeAt, RecLenAt, NameLenAt;
    var d := Clear(c, at);
    ClearBytes(c, at);
    ClearedHeader(c, d, at);
    assert d[at + 8..at + 8 + NameLenAt(c, at)] == c[at + 8..at + 8 + NameLenAt(c, at)];
  }

  lemma ClearedHeader(c: Bytes, d: Bytes, at: nat)
    requires at + 8 <= |c| == |d|
    requires d[at] == 0 && d[at + 1] == 0 && d[at + 2] == 0 && d[at + 3] == 0
    requires d[at + 4] == c[at + 4] && d[at + 5] == c[at + 5] && d[at + 6] == c[at + 6]
    ensures InodeAt(d, at) == 0 && RecLenAt(d, at) == RecLenAt(c, at) && NameLenAt(d, at) == NameLenAt(c, at)
  {
    assert RecLenAt(d, at) == Short16(d[at + 4], d[at + 5]);
    assert RecLenAt(c, at) == Short16(c[at + 4], c[at + 5]);
    assert Short16(d[at + 4], d[at + 5]) == Short16(c[at + 4], c[at + 5]);
  }

  lemma ClearedOther(c: Bytes, off: nat, at: nat)
    requires RecordAt(c, off) && RecordAt(c, at)
    requires off + RecLenAt(c, off) <= at || at + 8 <= off
    ensures var d := Clear(c, at);
            && |d| == |c| && RecordAt(d, off) && RecLenAt(d, off) == RecLenAt(c, off)
            && EntryAt(d, off) == EntryAt(c, off)
  {
    hide Clear, LittleEndian;
    ClearBytes(c, at);
    var d := Clear(c, at);
    var h := off + 8 + NameLenAt(c, off);
    assert d[off..h] == c[off..h];
    RecordMoved(c, off, d, off);
  }

  lemma {:induction false} ClearTail(c: Bytes, off: nat, at: nat)
    requires Tiled(c, off) && RecordAt(c, at) && at + 8 <= off
    ensures Tiled(Clear(c, at), off) && Entries(Clear(c, at), off) == Entries(c, off)
    decreases |c| - off
  {
    hide Clear, LittleEndian;
    ClearBytes(c, at);
    if off != |c| {
      ClearedOther(c, off, at);
      ClearTail(c, off + RecLenAt(c, off), at);
    }
  }

  /** After the unlink write the name is gone and every other name is as it was. */
  lemma ClearMap(c: Bytes, name: Bytes)
    requires IsDirectory(c) && Find(c, 0, name).Some?
    ensures var at := Find(c, 0, name).value.off;
            && at + 8 <= |c| && IsDirectory(Clear(c, at))
            && DirMap(Clear(c, at)) == DirMap(c) - {name}
            && |Clear(c, at)| == |c|
  {
    hide Clear, EntryAt, RecordAt, RecLenAt, Cleared, Names, Tiled, Entries;
    var e := Find(c, 0, name).value;
    var es := Entries(c, 0);
    var k :| 0 <= k < |es| && es[k] == e;
    EntryHeader(c, e.off);
    ClearBytes(c, e.off);
    ClearTiled(c, 0, e.off);
    OffsetsDiffer(c, k);
    ClearNames(es, k);
  }

  lemma EntryHeader(c: Bytes, off: nat)
    requires RecordAt(c, off)
    ensures off + 8 <= |c| && 8 <= RecLenAt(c, off)
  {}

  lemma OffsetsDiffer(c: Bytes, k: nat)
    requires Tiled(c, 0) && k < |Entries(c, 0)|
    ensures forall i :: 0 <= i < |Entries(c, 0)| && i != k ==> Entries(c, 0)[i].off != Entries(c, 0)[k].off
  {
    var es := Entries(c, 0);
    forall i | 0 <= i < |es| ensures es[i].recLen >= 8 {
      assert RecordAt(c, es[i].off) && es[i] == EntryAt(c, es[i].off);
    }
  }

  lemma ClearDistinct(es: seq<Entry>, at: nat)
    requires Distinct(es)
    ensures Distinct(Cleared(es, at))
  {}

  lemma ClearNames(es: seq<Entry>, k: nat)
    requires Distinct(es) && k < |es| && es[k].inode != 0
    requires forall i :: 0 <= i < |es| && i != k ==> es[i].off != es[k].off
    ensures Distinct(Cleared(es, es[k].off))
    ensures Names(Cleared(es, es[k].off)) == Names(es) - {es[k].name}
  {
    hide Names, Distinct;
    var fs := Cleared(es, es[k].off);
    var name := es[k].name;
    ClearDistinct(es, es[k].off);
    var m, w := Names(es), Names(fs);
    forall n | n in w ensures n in m && n != name && w[n] == m[n] {
      var i := NameEntry(fs, n);
      SameName(es, i, k);
      NameOf(es, es[i]);
    }
    forall n | n in m && n != name ensures n in w {
      var i := NameEntry(es, n);
      NameOf(fs, fs[i]);
    }
    assert w == m - {name};
  }

  lemma SameName(es: seq<Entry>, i: nat, k: nat)
    requires Distinct(es) && i < |es| && k < |es| && es[i].inode != 0 && es[k].inode != 0
    ensures es[i].name == es[k].name <==> i == k
  {}
}
