/** ext2fs_dirlookup, ext2fs_dirlink and the directory write of sys_unlink, over files. */
module Ext2Dir {
  import opened Basics
  import opened Ext2Block
  import opened Ext2Tree
  import opened Ext2Grow
  import opened Ext2File
  import opened Ext2DirFormat
  import opened Ext2Space
  import opened Ext2Fs

  /** What strncmp looks at. */
  function Prefix(s: Bytes, n: nat): Bytes { if |s| <= n then s else s[..n] }

  /** The character at s[i], with the terminating NUL. */
  function CharAt(s: Bytes, i: nat): Byte { if i < |s| then s[i] else 0 }

  /** ext2fs_namecmp(s, t) == 0 */
  method Namecmp(s: Bytes, t: Bytes) returns (equal: bool)
    requires 0 !in s && 0 !in t
    ensures equal <==> Prefix(s, NAME_LEN) == Prefix(t, NAME_LEN)
  {
    var n: nat, i := NAME_LEN, 0;
    while n > 0 && CharAt(s, i) != 0 && CharAt(s, i) == CharAt(t, i)
      invariant n + i == NAME_LEN && i <= |s| && i <= |t| && s[..i] == t[..i]
    {
      n := n - 1;
      i := i + 1;
    }
    if n == 0 {
      return true;
    }
    if CharAt(s, i) != CharAt(t, i) {
      var a, b := Prefix(s, NAME_LEN), Prefix(t, NAME_LEN);
      assert i < |a| || i < |b|;
      assert i < |a| && i < |b| ==> a[i] != b[i];
    }
    return CharAt(s, i) == CharAt(t, i);
  }

  /** off is the end of a directory or the place of one of its records. */
  ghost predicate Reached(c: Bytes, off: nat) {
    IsDirectory(c) && off <= |c| && Tiled(c, off) && forall e :: e in Entries(c, off) ==> e in Entries(c, 0)
  }

  /** One turn of a search. */
  lemma LookAt(c: Bytes, off: nat, name: Bytes)
    requires Reached(c, off) && off < |c|
    ensures RecordAt(c, off) && off + 8 <= off + RecLenAt(c, off) <= |c|
    ensures Reached(c, off + RecLenAt(c, off))
    ensures EntryAt(c, off).inode != 0 ==> 0 !in EntryAt(c, off).name
    ensures Tiled(c, off) && Tiled(c, off + RecLenAt(c, off))
    ensures Find(c, off, name) ==
            if Hit(EntryAt(c, off), name) then Some(EntryAt(c, off)) else Find(c, off + RecLenAt(c, off), name)
  {
    hide RecordAt, EntryAt, RecLenAt, Distinct, Hit;
    RecordFits(c, off);
    assert Entries(c, off) == [EntryAt(c, off)] + Entries(c, off + RecLenAt(c, off));
    assert EntryAt(c, off) in Entries(c, off);
    if EntryAt(c, off).inode != 0 { NoNul(c, EntryAt(c, off)); }
  }

  lemma RecordFits(c: Bytes, off: nat)
    requires Tiled(c, off) && off < |c|
    ensures RecordAt(c, off) && 8 <= RecLenAt(c, off) && off + RecLenAt(c, off) <= |c|
  {}

  lemma SearchEnds(c: Bytes, name: Bytes)
    requires IsDirectory(c)
    ensures Tiled(c, 0) && Tiled(c, |c|) && Reached(c, 0) && Find(c, |c|, name) == None
  {}

  /** The header fields as ext2fs_dirlookup reads them out of eight bytes. */
  lemma HeaderRead(c: Bytes, off: nat, h: Bytes)
    requires Header(c, off) && h == c[off..off + 8]
    ensures InodeAt(h, 0) == InodeAt(c, off) && RecLenAt(h, 0) == RecLenAt(c, off)
    ensures NameLenAt(h, 0) == NameLenAt(c, off)
  {}

  /** The two reads of one turn of ext2fs_dirlookup: the header, and the name if it has one. */
  method ReadEntry(fs: FileSystem, dp: nat, off: Word) returns (inode: Word, recLen: nat, name: Bytes)
    requires fs.Ready() && dp in fs.inodes
    requires fs.inodes[dp].size <= LIMIT && RecordAt(Content(fs.Vol(), dp), off)
    modifies fs`disk, fs`held, fs`inodes, fs`owner
    ensures fs.Ready() && fs.Vol() == old(fs.Vol())
    ensures var c := Content(fs.Vol(), dp);
            && inode == InodeAt(c, off) && recLen == RecLenAt(c, off)
            && name == c[off + 8..off + 8 + NameLenAt(c, off)]
  {
    hide Good, Files, Content, FileSystem.Ready, InodeAt, RecLenAt, NameLenAt;
    ghost var c := Content(fs.Vol(), dp);
    LimitWraps(0, 0);
    var ok, h := fs.Readi(dp, off, 8);
    HeaderRead(c, off, h);
    inode, recLen := InodeAt(h, 0), RecLenAt(h, 0);
    var nameLen := NameLenAt(h, 0);
    name := [];
    if nameLen > 0 {
      ok, name := fs.Readi(dp, off + 8, nameLen);
    }
  }

  /** ext2fs_dirlookup. The chain tiles the directory, so none of its panics is reached. */
  method Dirlookup(fs: FileSystem, dp: nat, name: Bytes) returns (r: Option<Entry>)
    requires fs.Ready() && dp in fs.inodes && 0 !in name
    requires IsDirectory(Content(fs.Vol(), dp))
    modifies fs`disk, fs`held, fs`inodes, fs`owner
    ensures fs.Ready() && fs.Vol() == old(fs.Vol())
    ensures r == Find(Content(fs.Vol(), dp), 0, Prefix(name, NAME_LEN))
    ensures r.Some? <==> Prefix(name, NAME_LEN) in DirMap(Content(fs.Vol(), dp))
  {
    hide DirMap;
    hide Good, Files, Content, FileSystem.Ready, RecordAt, EntryAt, InodeAt, RecLenAt, NameLenAt;
    hide Find, Tiled, Entries, IsDirectory, Reached;
    ghost var v := fs.Vol();
    ghost var c := Content(v, dp);
    SizeBound(fs, dp);
    SearchEnds(c, Prefix(name, NAME_LEN));
    var off := 0;
    while off < fs.inodes[dp].size
      invariant fs.Ready() && fs.Vol() == v && off <= |c|
      invariant Reached(c, off) && Tiled(c, off)
      invariant Find(c, 0, Prefix(name, NAME_LEN)) == Find(c, off, Prefix(name, NAME_LEN))
    {
      LookAt(c, off, Prefix(name, NAME_LEN));
      var inode, recLen, fileName := ReadEntry(fs, dp, off);
      EntryIs(c, off, fileName);
      if inode != 0 {
        var same := Namecmp(name, fileName);
        if same {
          FindIsMap(c, Prefix(name, NAME_LEN));
          return Some(Entry(off, inode, recLen, fileName));
        }
      }
      off := off + recLen;
    }
    FindIsMap(c, Prefix(name, NAME_LEN));
    return None;
  }

  lemma SizeBound(fs: FileSystem, dp: nat)
    requires fs.Ready() && dp in fs.inodes
    ensures fs.inodes[dp].size <= LIMIT < U32 - 2048
  {
    LimitWraps(0, 0);
  }

  lemma EntryIs(c: Bytes, off: nat, name: Bytes)
    requires RecordAt(c, off)
    requires name == c[off + 8..off + 8 + NameLenAt(c, off)]
    ensures EntryAt(c, off) == Entry(off, InodeAt(c, off), RecLenAt(c, off), name)
    ensures |name| <= NAME_LEN && Prefix(name, NAME_LEN) == name
  {}

  lemma NoNul(c: Bytes, e: Entry)
    requires IsDirectory(c) && e in Entries(c, 0) && e.inode != 0
    ensures 0 !in e.name
  {}

  /** ext2fs_dirlink. The result of ext2fs_writei is ignored, so 0 is also returned when the
      directory may not grow any more. In a volume whose blocks are all in the groups of
      their inodes, as ext2fs_balloc leaves them, that does not happen: 0 means added. */
  method Dirlink(fs: FileSystem, dp: nat, name: Bytes, inum: Word) returns (halted: bool, r: int)
    requires fs.Ready() && dp in fs.inodes && 0 !in name && |name| < U32
    requires IsDirectory(Content(fs.Vol(), dp))
    modifies fs`disk, fs`held, fs`inodes, fs`owner, fs`itable
    ensures var c, end := old(Content(fs.Vol(), dp)), |old(Content(fs.Vol(), dp))| + DirentSize(|name|);
            halted <==> Linked(c, name) == 0 && end <= LIMIT && Short(fs.geo, old(fs.Vol()), dp, Blocks(end))
    ensures halted ==> Full(fs.geo, fs.Vol(), dp)
    ensures !halted ==> fs.Ready() && fs.inodes.Keys == old(fs.inodes).Keys
    ensures !halted ==> r == Linked(old(Content(fs.Vol(), dp)), name)
    ensures !halted ==> r == 0 || r == -1
    ensures !halted ==> (r == -1 <==> |name| == 0 || |name| > 255 || name in DirMap(old(Content(fs.Vol(), dp))))
    ensures !halted && r == -1 ==> fs.Vol() == old(fs.Vol())
    ensures !halted && r == 0 ==> Content(fs.Vol(), dp) == LinkedContent(old(Content(fs.Vol(), dp)), name, inum)
    ensures !halted && r == 0 && inum != 0 && old(Homed(fs.geo, fs.Vol())) ==>
              && IsDirectory(Content(fs.Vol(), dp))
              && DirMap(Content(fs.Vol(), dp)) == DirMap(old(Content(fs.Vol(), dp)))[name := inum]
    ensures !halted && old(Homed(fs.geo, fs.Vol())) ==> Homed(fs.geo, fs.Vol())
    ensures !halted ==> forall j :: j in fs.inodes && j != dp ==> Content(fs.Vol(), j) == old(Content(fs.Vol(), j))
  {
    hide Good, Files, Content, FileSystem.Ready, Record, IsDirectory, Find, Homed, Short, LinkedContent, DirMap;
    hide Linked, Prefix, Blocks;
    ghost var v := fs.Vol();
    ghost var c := Content(v, dp);
    LinkedIs(c, name);
    var nameLen := |name|;
    if nameLen <= 0 || nameLen > NAME_LEN {
      return false, -1;
    }
    var ip := Dirlookup(fs, dp, name);
    if ip.Some? {
      return false, -1;
    }
    SizeBound(fs, dp);
    LinkedHow(c, name, inum);
    RoomToLink(fs, dp, name, inum);
    var off := fs.inodes[dp].size;
    var n;
    halted, n := fs.Writei(dp, Record(inum, name), off);
    return halted, 0;
  }

  /** The two ways a call that returns 0 can leave the directory. */
  lemma LinkedHow(c: Bytes, name: Bytes, inum: Word)
    requires |name| <= NAME_LEN
    ensures |c| + DirentSize(|name|) <= LIMIT ==> LinkedContent(c, name, inum) == Splice(c, |c|, Record(inum, name))
    ensures |c| + DirentSize(|name|) > LIMIT ==> LinkedContent(c, name, inum) == c
  {}

  /** A directory in its own group is far from the limit. */
  lemma RoomToLink(fs: FileSystem, dp: nat, name: Bytes, inum: Word)
    requires fs.Ready() && dp in fs.inodes && 0 !in name && IsDirectory(Content(fs.Vol(), dp))
    requires Linked(Content(fs.Vol(), dp), name) == 0
    ensures var c := Content(fs.Vol(), dp); var d := LinkedContent(c, name, inum);
            inum != 0 && Homed(fs.geo, fs.Vol()) ==> IsDirectory(d) && DirMap(d) == DirMap(c)[name := inum]
  {
    hide Good, Files, Content, IsDirectory, Find, LinkedContent, DirMap;
    if inum != 0 && Homed(fs.geo, fs.Vol()) {
      SizeInGroup(fs.geo, fs.Vol(), dp);
      LinkMap(Content(fs.Vol(), dp), name, inum);
    }
  }

  /** The result of ext2fs_dirlink: refused names and names already there give -1. */
  function Linked(c: Bytes, name: Bytes): int
    requires IsDirectory(c)
  {
    if |name| == 0 || |name| > NAME_LEN || Find(c, 0, name).Some? then -1 else 0
  }

  lemma LinkedIs(c: Bytes, name: Bytes)
    requires IsDirectory(c)
    ensures Linked(c, name) == if |name| == 0 || |name| > 255 || name in DirMap(c) then -1 else 0
    ensures |name| <= 255 ==> Prefix(name, NAME_LEN) == name
  {
    FindIsMap(c, name);
  }

  /** The directory after a call that returned 0. */
  function LinkedContent(c: Bytes, name: Bytes, inum: Word): Bytes {
    if |name| <= NAME_LEN && |c| + DirentSize(|name|) <= LIMIT then c + Record(inum, name) else c
  }

  /** For any directory, also one this code could not have made: a call that returns 0 leaves
      a directory. The name then maps to inum and every other name to what it was exactly
      when the record fits below the file size limit. */
  lemma LinkMap(c: Bytes, name: Bytes, inum: Word)
    requires IsDirectory(c) && 0 !in name && inum != 0 && Linked(c, name) == 0
    ensures var d := LinkedContent(c, name, inum);
            && IsDirectory(d)
            && (DirMap(d) == DirMap(c)[name := inum] <==> |c| + DirentSize(|name|) <= LIMIT)
            && (|c| + DirentSize(|name|) > LIMIT ==> DirMap(d) == DirMap(c))
  {
    FindIsMap(c, name);
    if |c| + DirentSize(|name|) <= LIMIT {
      AppendMap(c, inum, name);
    }
  }

  /** A directory of the greatest length: records of 1024 bytes without an inode or a name. */
  function LongestDirectory(): (c: Bytes)
    ensures |c| == LIMIT
  {
    LimitWraps(0, 0);
    seq(LIMIT, i requires 0 <= i < LIMIT => if i % 1024 == 5 then 4 else 0)
  }

  lemma {:induction false} LongestTiled(off: nat)
    requires off <= LIMIT && off % 1024 == 0
    ensures Tiled(LongestDirectory(), off)
    ensures forall e :: e in Entries(LongestDirectory(), off) ==> e.inode == 0
    decreases LIMIT - off
  {
    hide LongestDirectory, RecordAt, EntryAt, RecLenAt;
    var c := LongestDirectory();
    LimitWraps(0, 0);
    if off < LIMIT {
      LongestRecord(off);
      LongestTiled(off + 1024);
      EntriesFrom(c, off);
    }
  }

  lemma LongestRecord(off: nat)
    requires off + 1024 <= LIMIT && off % 1024 == 0
    ensures var c := LongestDirectory();
            RecordAt(c, off) && RecLenAt(c, off) == 1024 && EntryAt(c, off).inode == 0
  {
    hide LongestDirectory;
    var c := LongestDirectory();
    LongestByte(off, 0);
    LongestByte(off, 1);
    LongestByte(off, 2);
    LongestByte(off, 3);
    LongestByte(off, 4);
    LongestByte(off, 5);
    LongestByte(off, 6);
    assert RecLenAt(c, off) == Short16(0, 4);
  }

  lemma LongestByte(off: nat, j: nat)
    requires off + 1024 <= LIMIT && off % 1024 == 0 && j < 1024
    ensures LongestDirectory()[off + j] == if j == 5 then 4 else 0
  {
    assert (off + j) % 1024 == j;
  }

  /** There the call returns 0 for any name it accepts and adds nothing. */
  lemma NothingAdded(name: Bytes, inum: Word)
    requires 0 < |name| <= NAME_LEN && 0 !in name && inum != 0
    ensures var c := LongestDirectory(); var d := LinkedContent(c, name, inum);
            && IsDirectory(c) && Linked(c, name) == 0
            && IsDirectory(d) && name !in DirMap(d)
  {
    var c := LongestDirectory();
    LongestTiled(0);
    FindIsMap(c, name);
    LinkMap(c, name, inum);
  }

  /** The write of sys_unlink, with the offset ext2fs_dirlookup reported: always complete. */
  method ClearEntry(fs: FileSystem, dp: nat, ghost name: Bytes, off: Word)
    requires fs.Ready() && dp in fs.inodes && IsDirectory(Content(fs.Vol(), dp))
    requires var hit := Find(Content(fs.Vol(), dp), 0, name); hit.Some? && hit.value.off == off
    modifies fs`disk, fs`held, fs`inodes, fs`owner, fs`itable
    ensures fs.Ready() && fs.inodes.Keys == old(fs.inodes).Keys
    ensures old(Homed(fs.geo, fs.Vol())) ==> Homed(fs.geo, fs.Vol())
    ensures var c, d := old(Content(fs.Vol(), dp)), Content(fs.Vol(), dp);
            && |d| == |c| && IsDirectory(d) && DirMap(d) == DirMap(c) - {name} && Find(d, 0, name).None?
    ensures forall j :: j in fs.inodes && j != dp ==> Content(fs.Vol(), j) == old(Content(fs.Vol(), j))
  {
    hide Good, Files, Content, FileSystem.Ready, IsDirectory, Find, DirMap, Splice, Homed, Short;
    ghost var c := Content(fs.Vol(), dp);
    ClearMap(c, name);
    SizeBound(fs, dp);
    var halted, n := fs.Writei(dp, [0, 0, 0, 0], off);
    FindIsMap(Content(fs.Vol(), dp), name);
  }
}
