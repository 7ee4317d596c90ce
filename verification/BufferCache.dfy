/** bio.c. Each method is a stretch of code that other processes cannot interleave with: what
    is done under bcache.lock, or by the holder of a buffer's sleeplock. A token stands for one
    use of a buffer, from bget to the end of brelse; iderw is an atomic disk access. */
module BufferCache {
  import opened Basics
  import opened BufferRing

  type Data = seq<int>

  datatype Key = Key(dev: nat, blockno: nat)

  datatype Rec = Rec(key: Key, valid: bool, dirty: bool, refcnt: nat, holder: Option<int>, data: Data)

  type Recs = s: seq<Rec> | |s| == 30 witness seq(30, _ => Rec(Key(0, 0), false, false, 0, None, []))
  type Users = s: seq<set<int>> | |s| == 30 witness seq(30, _ => {})

  const ZERO := Key(0, 0)

  /** In use or holding data, as opposed to never used yet. */
  predicate Live(x: Rec) { x.refcnt > 0 || x.valid }

  /** users[b] are the uses of b; left[b] those that have given its lock back already. */
  ghost predicate Counted(bufs: Recs, users: Users, left: Users) {
    forall b: Buf ::
      && bufs[b].refcnt == |users[b]| && left[b] <= users[b]
      && (bufs[b].holder.Some? ==> bufs[b].holder.value in users[b] - left[b] && bufs[b].valid)
      && (left[b] != {} ==> bufs[b].valid) && !bufs[b].dirty
  }

  /** At most one live buffer for a block. */
  ghost predicate Unique(bufs: Recs) {
    forall b: Buf, c: Buf :: b != c && Live(bufs[b]) && Live(bufs[c]) ==> bufs[b].key != bufs[c].key
  }

  /** Unused buffers all carry block (0, 0), and the live buffer of that block comes first. */
  ghost predicate LiveFirst(bufs: Recs, ring: seq<Buf>) {
    && (forall b: Buf :: !Live(bufs[b]) ==> bufs[b].key == ZERO)
    && (forall i, j :: 0 <= i < j < |ring| && !Live(bufs[ring[i]]) ==>
          !Live(bufs[ring[j]]) || bufs[ring[j]].key != ZERO)
  }

  /** A buffer nobody holds has what the disk has. */
  ghost predicate Agrees(bufs: Recs, disk: Key -> Data) {
    forall b: Buf :: bufs[b].valid && bufs[b].holder.None? ==> bufs[b].data == disk(bufs[b].key)
  }

  ghost predicate AllIn(ring: seq<Buf>) { forall b: Buf :: b in ring }

  /** The first buffer of the ring that carries the key. */
  predicate Hit(bufs: Recs, ring: seq<Buf>, key: Key, k: int) {
    0 <= k < |ring| && bufs[ring[k]].key == key && forall i :: 0 <= i < k ==> bufs[ring[i]].key != key
  }

  predicate Missing(bufs: Recs, ring: seq<Buf>, key: Key) { forall i :: 0 <= i < |ring| ==> bufs[ring[i]].key != key }

  /** The unused buffer nearest the end of the ring. */
  ghost predicate LeastRecent(bufs: Recs, ring: seq<Buf>, b: int) {
    exists k :: (0 <= k < |ring| && ring[k] == b && bufs[ring[k]].refcnt == 0
                 && forall i :: k < i < |ring| ==> bufs[ring[i]].refcnt > 0)
  }

  function Taken(bufs: Recs, b: Buf): Recs { bufs[b := bufs[b].(refcnt := bufs[b].refcnt + 1)] }

  function Recycled(bufs: Recs, b: Buf, key: Key): Recs {
    bufs[b := bufs[b].(key := key, valid := false, dirty := false, refcnt := 1)]
  }

  /** Using the buffer the search finds keeps one live buffer a block: it is the live one if
      there is one. */
  lemma TakenKeeps(bufs: Recs, ring: seq<Buf>, key: Key, k: int)
    requires Unique(bufs) && LiveFirst(bufs, ring) && AllIn(ring) && NoRepeats(ring) && Hit(bufs, ring, key, k)
    ensures Unique(Taken(bufs, ring[k])) && LiveFirst(Taken(bufs, ring[k]), ring)
  {
    var b := ring[k];
    forall c: Buf | c != b && Live(bufs[c]) ensures bufs[c].key != key {
      assert c in ring;
      var i :| 0 <= i < |ring| && ring[i] == c;
      if i > k && !Live(bufs[b]) { assert bufs[b].key == ZERO; }
    }
    var t := Taken(bufs, b);
    forall i, j | 0 <= i < j < |ring| && !Live(t[ring[i]]) ensures !Live(t[ring[j]]) || t[ring[j]].key != ZERO {
      if j == k { assert bufs[ring[i]].key == ZERO; }
    }
  }

  /** So does recycling a buffer when the search fails. */
  lemma RecycledKeeps(bufs: Recs, ring: seq<Buf>, key: Key, b: Buf)
    requires Unique(bufs) && LiveFirst(bufs, ring) && AllIn(ring) && Missing(bufs, ring, key)
    ensures Unique(Recycled(bufs, b, key)) && LiveFirst(Recycled(bufs, b, key), ring)
  {
    forall c: Buf ensures bufs[c].key != key {
      assert c in ring;
      var i :| 0 <= i < |ring| && ring[i] == c;
    }
  }

  lemma MovedKeeps(bufs: Recs, ring: seq<Buf>, k: nat)
    requires k < |ring| && LiveFirst(bufs, ring) && Live(bufs[ring[k]]) && AllIn(ring)
    ensures LiveFirst(bufs, [ring[k]] + Without(ring, k)) && AllIn([ring[k]] + Without(ring, k))
  {
    var b, w := ring[k], Without(ring, k);
    var r := [b] + w;
    forall c: Buf ensures c in r {
      assert c in ring;
      var i :| 0 <= i < |ring| && ring[i] == c;
      if i < k { assert w[i] == c; assert r[i + 1] == c; }
      if i > k { assert w[i - 1] == c; assert r[i] == c; }
      if i == k { assert r[0] == c; }
    }
    forall i, j | 0 <= i < j < |r| && !Live(bufs[r[i]]) ensures !Live(bufs[r[j]]) || bufs[r[j]].key != ZERO {
      assert r[i] == ring[if i - 1 < k then i - 1 else i];
      assert r[j] == ring[if j - 1 < k then j - 1 else j];
    }
  }

  class Cache {
    var next: Links
    var prev: Links
    var bufs: Recs
    var disk: Key -> Data
    ghost var ring: seq<Buf>
    ghost var users: Users
    ghost var left: Users

    ghost predicate Ordered()
      reads this
    {
      Spells(next, prev, ring) && AllIn(ring) && Counted(bufs, users, left) && Unique(bufs) && LiveFirst(bufs, ring)
    }

    ghost predicate Valid()
      reads this
    {
      Ordered() && Agrees(bufs, disk)
    }

    /** buffer_cache_init, over zeroed memory. */
    constructor (disk: Key -> Data)
      ensures Valid() && this.disk == disk
      ensures forall b: Buf :: users[b] == {}
    {
      this.disk := disk;
      next, prev := seq(31, _ => HEAD), seq(31, _ => HEAD);
      bufs := seq(30, _ => Rec(Key(0, 0), false, false, 0, None, []));
      ring := [];
      users, left := seq(30, _ => {}), seq(30, _ => {});
      new;
      var b := 0;
      while b < NBUF
        invariant 0 <= b <= NBUF && Spells(next, prev, ring)
        invariant forall c: Buf :: c in ring <==> c < b
        invariant this.disk == disk
        invariant forall c: Buf :: bufs[c] == Rec(Key(0, 0), false, false, 0, None, [])
        invariant forall c: Buf :: users[c] == {} && left[c] == {}
      {
        PushFront(next, prev, ring, b);
        next, prev := next[b := next[HEAD]], prev[b := HEAD];
        prev := prev[next[HEAD] := b];
        next := next[HEAD := b];
        ring := [b] + ring;
        b := b + 1;
      }
    }

    /** The first search of bget, most recently used first. */
    method Search(key: Key) returns (b: int, ghost k: int)
      requires Valid()
      ensures b == HEAD ==> Missing(bufs, ring, key)
      ensures b != HEAD ==> Hit(bufs, ring, key, k) && b == ring[k]
    {
      hide Counted, Unique, LiveFirst, Agrees;
      k := 0;
      FirstLink(next, prev, ring);
      b := next[HEAD];
      while b != HEAD
        invariant 0 <= k <= |ring| && b == Path(ring)[k + 1]
        invariant forall i :: 0 <= i < k ==> bufs[ring[i]].key != key
        decreases |ring| - k
      {
        if bufs[b].key.dev == key.dev && bufs[b].key.blockno == key.blockno {
          return;
        }
        Neighbours(next, prev, ring, k);
        b := next[b];
        k := k + 1;
      }
    }

    /** The second search, for a buffer to recycle, least recently used first. */
    method SearchUnused() returns (b: int)
      requires Valid()
      ensures b == HEAD ==> forall c: Buf :: bufs[c].refcnt > 0
      ensures b != HEAD ==> 0 <= b < NBUF && bufs[b].refcnt == 0 && LeastRecent(bufs, ring, b)
    {
      hide Unique, LiveFirst, Agrees;
      ghost var k := |ring|;
      FirstLink(next, prev, ring);
      b := prev[HEAD];
      while b != HEAD
        invariant 0 <= k <= |ring| && b == Path(ring)[k]
        invariant forall i :: k <= i < |ring| ==> bufs[ring[i]].refcnt > 0
        decreases k
      {
        if bufs[b].refcnt == 0 && !bufs[b].dirty {
          assert ring[k - 1] == b;
          return;
        }
        Neighbours(next, prev, ring, k - 1);
        b := prev[b];
        k := k - 1;
      }
      forall c: Buf ensures bufs[c].refcnt > 0 {
        assert c in ring;
        var i :| 0 <= i < |ring| && ring[i] == c;
      }
    }

    /** bget up to where it gives back bcache.lock; HEAD is its panic. The buffer already has
        the block, or it is the least recently used of those nobody is using. */
    method Bget(t: int, key: Key) returns (b: int)
      requires Valid() && forall c: Buf :: t !in users[c]
      modifies this
      ensures Valid() && disk == old(disk) && ring == old(ring) && left == old(left)
      ensures b == HEAD <==> forall c: Buf :: old(bufs)[c].key != key && old(bufs)[c].refcnt > 0
      ensures b == HEAD ==> bufs == old(bufs) && users == old(users)
      ensures b != HEAD ==> 0 <= b < NBUF && bufs[b].key == key && users == old(users)[b := old(users)[b] + {t}]
      ensures b != HEAD ==> forall c: Buf :: (c != b ==> bufs[c] == old(bufs)[c])
      ensures b != HEAD && old(bufs)[b].key == key ==> bufs == Taken(old(bufs), b)
      ensures b != HEAD && old(bufs)[b].key != key ==> bufs == Recycled(old(bufs), b, key) && old(users)[b] == {}
      ensures b != HEAD && old(bufs)[b].key != key ==> LeastRecent(old(bufs), ring, b)
    {
      hide Unique, LiveFirst, Spells, Counted, Agrees, AllIn, Missing, LeastRecent;
      ghost var k;
      SpellsApart(next, prev, ring);
      b, k := Search(key);
      if b != HEAD {
        TakenKeeps(bufs, ring, key, k);
        TakenCounted(bufs, users, left, disk, t, b);
        bufs := bufs[b := bufs[b].(refcnt := bufs[b].refcnt + 1)];
        users := users[b := users[b] + {t}];
        return;
      }
      MissingEverywhere(bufs, ring, key);
      b := SearchUnused();
      if b != HEAD {
        NobodyUses(bufs, users, left, b);
        RecycledKeeps(bufs, ring, key, b);
        RecycledCounted(bufs, users, left, disk, t, b, key);
        bufs := bufs[b := bufs[b].(key := key, valid := false, dirty := false, refcnt := 1)];
        users := users[b := users[b] + {t}];
      }
    }

    /** The rest of bread once acquiresleep succeeds: the caller holds the buffer, and it has
        the disk's data. */
    method LockAndRead(t: int, b: Buf)
      requires Valid() && t in users[b] && t !in left[b] && bufs[b].holder.None?
      modifies this
      ensures Valid() && disk == old(disk) && users == old(users) && left == old(left) && ring == old(ring)
      ensures bufs == old(bufs)[b := old(bufs)[b].(valid := true, holder := Some(t), data := disk(bufs[b].key))]
    {
      hide Spells, AllIn;
      InUse(bufs, users, left, t, b);
      bufs := bufs[b := bufs[b].(holder := Some(t))];
      if !bufs[b].valid {
        // iderw
        bufs := bufs[b := bufs[b].(data := disk(bufs[b].key), valid := true)];
      }
    }

    /** The holder changes the data. */
    method Modify(t: int, b: Buf, data: Data)
      requires Valid() && bufs[b].holder == Some(t)
      modifies this`bufs
      ensures Valid() && bufs == old(bufs)[b := old(bufs)[b].(data := data)]
    {
      hide Spells, AllIn;
      bufs := bufs[b := bufs[b].(data := data)];
    }

    /** bwrite: only this block of the disk changes. */
    method Bwrite(t: int, b: Buf)
      requires Valid() && bufs[b].holder == Some(t)
      modifies this
      ensures Valid() && bufs == old(bufs) && users == old(users) && left == old(left) && ring == old(ring)
      ensures forall key :: disk(key) == if key == bufs[b].key then bufs[b].data else old(disk)(key)
    {
      hide Spells, AllIn;
      ghost var was := bufs;
      InUse(bufs, users, left, t, b);
      bufs := bufs[b := bufs[b].(dirty := true)];
      // iderw
      var was_disk, key, data := disk, bufs[b].key, bufs[b].data;
      disk := k => if k == key then data else was_disk(k);
      bufs := bufs[b := bufs[b].(dirty := false, valid := true)];
      assert bufs == was;
    }

    /** brelse up to releasesleep. The cache goes on agreeing with the disk exactly when the
        caller has kept to the rule of writing what it changed. */
    method ReleaseLock(t: int, b: Buf)
      requires Valid() && bufs[b].holder == Some(t)
      modifies this
      ensures Ordered() && (Agrees(bufs, disk) <==> old(bufs)[b].data == disk(old(bufs)[b].key))
      ensures disk == old(disk) && users == old(users) && ring == old(ring)
      ensures left == old(left)[b := old(left)[b] + {t}] && bufs == old(bufs)[b := old(bufs)[b].(holder := None)]
    {
      hide Spells, AllIn;
      bufs := bufs[b := bufs[b].(holder := None)];
      left := left[b := left[b] + {t}];
    }

    /** Unlinking b and linking it in behind the head. */
    method MoveToFront(b: Buf) returns (ghost k: nat)
      requires Spells(next, prev, ring) && b in ring
      modifies `next, `prev, `ring
      ensures Spells(next, prev, ring) && k < |old(ring)| && old(ring)[k] == b && ring == [b] + Without(old(ring), k)
    {
      hide Spells;
      k :| 0 <= k < |ring| && ring[k] == b;
      Neighbours(next, prev, ring, k);
      Unlink(next, prev, ring, k);
      prev, next := prev[next[b] := prev[b]], next[prev[b] := next[b]];
      PushFront(next, prev, Without(ring, k), b);
      next, prev := next[b := next[HEAD]], prev[b := HEAD];
      prev := prev[next[HEAD] := b];
      next := next[HEAD := b];
      ring := [b] + Without(ring, k);
    }

    /** The rest of brelse: the last user moves the buffer to the front of the list. */
    method Unref(t: int, b: Buf)
      requires Valid() && t in left[b]
      modifies this
      ensures Valid() && disk == old(disk)
      ensures users == old(users)[b := old(users)[b] - {t}] && left == old(left)[b := old(left)[b] - {t}]
      ensures bufs == old(bufs)[b := old(bufs)[b].(refcnt := old(bufs)[b].refcnt - 1)]
      ensures bufs[b].refcnt > 0 ==> ring == old(ring)
      ensures bufs[b].refcnt == 0 ==>
                exists k: nat :: k < |old(ring)| && old(ring)[k] == b && ring == [b] + Without(old(ring), k)
    {
      hide Spells, Agrees;
      UnrefKeeps(bufs, users, left, ring, t, b);
      bufs := bufs[b := bufs[b].(refcnt := bufs[b].refcnt - 1)];
      users := users[b := users[b] - {t}];
      left := left[b := left[b] - {t}];
      AgreesSame(old(bufs), bufs, disk);
      if bufs[b].refcnt == 0 {
        ghost var k := MoveToFront(b);
        MovedKeeps(bufs, old(ring), k);
      }
    }
  }

  lemma SpellsApart(next: Links, prev: Links, ring: seq<Buf>)
    requires Spells(next, prev, ring)
    ensures NoRepeats(ring)
  {}

  lemma MissingEverywhere(bufs: Recs, ring: seq<Buf>, key: Key)
    requires AllIn(ring) && Missing(bufs, ring, key)
    ensures forall c: Buf :: bufs[c].key != key
  {
    forall c: Buf ensures bufs[c].key != key {
      assert c in ring;
      var i :| 0 <= i < |ring| && ring[i] == c;
    }
  }

  /** One more use of a buffer. */
  lemma TakenCounted(bufs: Recs, users: Users, left: Users, disk: Key -> Data, t: int, b: Buf)
    requires Counted(bufs, users, left) && Agrees(bufs, disk) && t !in users[b]
    ensures Counted(Taken(bufs, b), users[b := users[b] + {t}], left) && Agrees(Taken(bufs, b), disk)
  {}

  /** The first use of a buffer for another block. */
  lemma RecycledCounted(bufs: Recs, users: Users, left: Users, disk: Key -> Data, t: int, b: Buf, key: Key)
    requires Counted(bufs, users, left) && Agrees(bufs, disk) && bufs[b].refcnt == 0
    ensures Counted(Recycled(bufs, b, key), users[b := users[b] + {t}], left) && Agrees(Recycled(bufs, b, key), disk)
  {
    NobodyUses(bufs, users, left, b);
    assert users[b] + {t} == {t};
  }

  lemma NobodyUses(bufs: Recs, users: Users, left: Users, b: Buf)
    requires Counted(bufs, users, left) && bufs[b].refcnt == 0
    ensures users[b] == {} && bufs[b].holder.None?
  {}

  lemma InUse(bufs: Recs, users: Users, left: Users, t: int, b: Buf)
    requires Counted(bufs, users, left) && t in users[b]
    ensures Live(bufs[b]) && !bufs[b].dirty && (bufs[b].holder.Some? ==> bufs[b].valid)
  {
    if users[b] == {} { assert false; }
  }

  lemma UnrefKeeps(bufs: Recs, users: Users, left: Users, ring: seq<Buf>, t: int, b: Buf)
    requires Counted(bufs, users, left) && Unique(bufs) && LiveFirst(bufs, ring) && t in left[b]
    ensures bufs[b].refcnt > 0 && bufs[b].valid
    ensures var now := bufs[b := bufs[b].(refcnt := bufs[b].refcnt - 1)];
            && Counted(now, users[b := users[b] - {t}], left[b := left[b] - {t}])
            && Unique(now) && LiveFirst(now, ring) && Live(now[b])
  {
    InUse(bufs, users, left, t, b);
    var now := bufs[b := bufs[b].(refcnt := |users[b] - {t}|)];
    assert |users[b] - {t}| == |users[b]| - 1;
    assert forall c: Buf :: Live(now[c]) == Live(bufs[c]) && now[c].key == bufs[c].key;
  }

  lemma AgreesSame(was: Recs, now: Recs, disk: Key -> Data)
    requires Agrees(was, disk)
    requires forall b: Buf :: now[b].valid == was[b].valid && now[b].holder == was[b].holder
    requires forall b: Buf :: now[b].key == was[b].key && now[b].data == was[b].data
    ensures Agrees(now, disk)
  {}
}
