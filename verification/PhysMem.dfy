/** The ranges of usable RAM in physmem.c, and their release to the page allocator. Addresses
    are physical and below 2^31, so P2V does not wrap. */
module PhysMem {
  import opened Basics
  import opened Frames

  const MAX_RANGES := 32
  const EARLY_END := 0x80_0000   // 8 MB

  type PhysAddr = w: int | 0 <= w < 0x8000_0000

  datatype Range = Range(start: PhysAddr, end: PhysAddr)

  predicate In(r: Range, a: int) { r.start <= a < r.end }

  /** a lies in one of the ranges. */
  ghost predicate Covers(rs: seq<Range>, a: int) { exists i :: 0 <= i < |rs| && In(rs[i], a) }

  ghost predicate SameCover(rs: seq<Range>, ts: seq<Range>) { forall a :: Covers(rs, a) <==> Covers(ts, a) }

  predicate NonEmpty(rs: seq<Range>) { forall i :: 0 <= i < |rs| ==> rs[i].start < rs[i].end }

  predicate Sorted(rs: seq<Range>) { forall i, j :: 0 <= i < j < |rs| ==> rs[i].start <= rs[j].start }

  /** Sorted, and the ranges do not even touch. */
  predicate Gaps(rs: seq<Range>) { forall i, j :: 0 <= i < j < |rs| ==> rs[i].end < rs[j].start }

  // ---- the boot loader's map ----

  datatype Entry = Entry(addr: U64, len: U64, available: bool)

  /** The usable part of an entry below the limit, as a list of at most one range. The end is
      computed in 64 bits and wraps. */
  function Piece(e: Entry, limit: PhysAddr): seq<Range> {
    var end := (e.addr + e.len) % TWO64;
    var stop := if end > limit then limit else end;
    if e.len > 0 && e.available && e.addr < limit && e.addr < stop then [Range(e.addr, stop)] else []
  }

  function Wanted(entries: seq<Entry>, limit: PhysAddr): seq<Range> {
    if entries == [] then []
    else Wanted(entries[..|entries| - 1], limit) + Piece(entries[|entries| - 1], limit)
  }

  function First(rs: seq<Range>): seq<Range> { if |rs| > MAX_RANGES then rs[..MAX_RANGES] else rs }

  /** What is taken to be usable: the map as far as it fits the table, or everything below the
      limit when the map has nothing. */
  function Usable(entries: seq<Entry>, limit: PhysAddr): seq<Range> {
    var w := First(Wanted(entries, limit));
    if w == [] && limit > 0 then [Range(0, limit)] else w
  }

  /** Entry e, whose end wraps, is available and contains address a, which is below the limit. */
  predicate Reports(e: Entry, limit: PhysAddr, a: int) {
    e.available && e.addr <= a < (e.addr + e.len) % TWO64 && a < limit
  }

  ghost predicate Reported(entries: seq<Entry>, limit: PhysAddr, a: int) {
    exists i :: 0 <= i < |entries| && Reports(entries[i], limit, a)
  }

  /** What counts as RAM: what is reported, or everything below the limit if nothing is. */
  ghost predicate Ram(entries: seq<Entry>, limit: PhysAddr, a: int) {
    Reported(entries, limit, a) || (0 <= a < limit && forall b :: !Reported(entries, limit, b))
  }

  lemma PieceIs(e: Entry, limit: PhysAddr, a: int)
    ensures Covers(Piece(e, limit), a) <==> Reports(e, limit, a)
  {
    var end := (e.addr + e.len) % TWO64;
    if e.available && e.addr <= a < end && a < limit {
      assert In(Piece(e, limit)[0], a);
    }
  }

  /** The pieces cover exactly the reported addresses. */
  lemma {:induction false} WantedIs(entries: seq<Entry>, limit: PhysAddr, a: int)
    ensures Covers(Wanted(entries, limit), a) <==> Reported(entries, limit, a)
  {
    hide Piece, Covers, Reports;
    if entries == [] {
      NothingCovered(a);
    } else {
      var front, last := entries[..|entries| - 1], entries[|entries| - 1];
      CoverConcat(Wanted(front, limit), Piece(last, limit), a);
      WantedIs(front, limit, a);
      PieceIs(last, limit, a);
      if Reported(front, limit, a) {
        var i :| 0 <= i < |front| && Reports(front[i], limit, a);
        assert entries[i] == front[i];
      }
      if Reported(entries, limit, a) {
        var i :| 0 <= i < |entries| && Reports(entries[i], limit, a);
        assert i < |front| ==> front[i] == entries[i];
      }
    }
  }

  lemma NothingCovered(a: int)
    ensures !Covers([], a)
  {}

  /** There are none exactly when nothing is reported. */
  lemma WantedNone(entries: seq<Entry>, limit: PhysAddr)
    ensures Wanted(entries, limit) == [] <==> forall a :: !Reported(entries, limit, a)
  {
    hide Covers, Reported;
    var w := Wanted(entries, limit);
    if w == [] {
      forall a ensures !Reported(entries, limit, a) {
        WantedIs(entries, limit, a);
        NothingCovered(a);
      }
    } else {
      PiecesFilled(entries, limit);
      FirstCovered(w);
      WantedIs(entries, limit, w[0].start);
    }
  }

  lemma FirstCovered(rs: seq<Range>)
    requires rs != [] && NonEmpty(rs)
    ensures Covers(rs, rs[0].start)
  {
    assert In(rs[0], rs[0].start);
  }

  lemma {:induction false} PiecesFilled(entries: seq<Entry>, limit: PhysAddr)
    ensures NonEmpty(Wanted(entries, limit))
  {
    if entries != [] {
      PiecesFilled(entries[..|entries| - 1], limit);
    }
  }

  /** What the table is built from covers nothing but RAM, and all of it if nothing was dropped. */
  lemma UsableIs(entries: seq<Entry>, limit: PhysAddr, a: int)
    ensures Covers(Usable(entries, limit), a) ==> Ram(entries, limit, a)
    ensures |Wanted(entries, limit)| <= MAX_RANGES ==>
              (Covers(Usable(entries, limit), a) <==> Ram(entries, limit, a))
  {
    hide Covers, Reported, Wanted;
    var w := Wanted(entries, limit);
    WantedNone(entries, limit);
    WantedIs(entries, limit, a);
    if w == [] {
      OneCovers(limit, a);
      NothingCovered(a);
    } else {
      FirstOnly(w, a);
    }
  }

  lemma OneCovers(limit: PhysAddr, a: int)
    ensures limit > 0 ==> (Covers([Range(0, limit)], a) <==> 0 <= a < limit)
  {
    if 0 <= a < limit { assert In([Range(0, limit)][0], a); }
  }

  lemma FirstOnly(rs: seq<Range>, a: int)
    ensures Covers(First(rs), a) ==> Covers(rs, a)
  {
    if i :| 0 <= i < |First(rs)| && In(First(rs)[i], a) {
      assert First(rs)[i] == rs[i];
    }
  }

  lemma RamBelow(entries: seq<Entry>, limit: PhysAddr, a: int)
    requires Ram(entries, limit, a)
    ensures 0 <= a < limit
  {}

  lemma UsableBelow(entries: seq<Entry>, limit: PhysAddr, a: int)
    requires Covers(Usable(entries, limit), a)
    ensures a < limit
  {
    hide Covers, Usable, Ram;
    UsableIs(entries, limit, a);
    RamBelow(entries, limit, a);
  }

  // ---- insertion ----

  function Inserted(rs: seq<Range>, k: nat, key: Range): seq<Range>
    requires k <= |rs|
  {
    rs[..k] + [key] + rs[k..]
  }

  lemma InsertedCover(rs: seq<Range>, k: nat, key: Range, a: int)
    requires k <= |rs|
    ensures Covers(Inserted(rs, k, key), a) <==> Covers(rs, a) || In(key, a)
  {
    var ts := Inserted(rs, k, key);
    if i :| 0 <= i < |rs| && In(rs[i], a) {
      assert ts[if i < k then i else i + 1] == rs[i];
    }
    if In(key, a) { assert ts[k] == key; }
    if i :| 0 <= i < |ts| && In(ts[i], a) {
      assert ts[i] == if i < k then rs[i] else if i == k then key else rs[i - 1];
    }
  }

  lemma InsertedSorted(rs: seq<Range>, k: nat, key: Range)
    requires k <= |rs| && Sorted(rs)
    requires forall i :: 0 <= i < k ==> rs[i].start <= key.start
    requires forall i :: k <= i < |rs| ==> key.start < rs[i].start
    ensures Sorted(Inserted(rs, k, key))
  {}

  lemma InsertedNonEmpty(rs: seq<Range>, i: nat, k: nat)
    requires NonEmpty(rs) && k <= i < |rs|
    ensures NonEmpty(Inserted(rs[..i], k, rs[i]) + rs[i + 1..])
  {
    var ts := Inserted(rs[..i], k, rs[i]) + rs[i + 1..];
    forall m | 0 <= m < |ts| ensures ts[m].start < ts[m].end {
      assert ts[m] == if m < k then rs[m] else if m == k then rs[i] else if m <= i then rs[m - 1] else rs[m];
    }
  }

  lemma SortedBelow(rs: seq<Range>, k: nat, key: Range)
    requires k <= |rs| && Sorted(rs) && (k > 0 ==> rs[k - 1].start <= key.start)
    ensures forall i :: 0 <= i < k ==> rs[i].start <= key.start
  {}

  lemma CoverAppend(rs: seq<Range>, r: Range, a: int)
    ensures Covers(rs + [r], a) <==> Covers(rs, a) || In(r, a)
  {
    var ts := rs + [r];
    if i :| 0 <= i < |rs| && In(rs[i], a) { assert ts[i] == rs[i]; }
    if In(r, a) { assert ts[|rs|] == r; }
  }

  lemma CoverConcat(rs: seq<Range>, ts: seq<Range>, a: int)
    ensures Covers(rs + ts, a) <==> Covers(rs, a) || Covers(ts, a)
  {
    var us := rs + ts;
    if i :| 0 <= i < |rs| && In(rs[i], a) { assert us[i] == rs[i]; }
    if i :| 0 <= i < |ts| && In(ts[i], a) { assert us[|rs| + i] == ts[i]; }
  }

  /** The table after its element i has gone to place k. */
  function Shifted(s: seq<Range>, k: nat, i: nat): seq<Range>
    requires k <= i < |s|
  {
    Inserted(s[..i], k, s[i]) + s[i + 1..]
  }

  lemma ShiftedSorted(s: seq<Range>, k: nat, i: nat, n: nat)
    requires k <= i < n <= |s| && NonEmpty(s[..n]) && Sorted(s[..i]) && (k > 0 ==> s[k - 1].start <= s[i].start)
    requires forall m :: k <= m < i ==> s[i].start < s[m].start
    ensures NonEmpty(Shifted(s, k, i)[..n]) && Sorted(Shifted(s, k, i)[..i + 1])
  {
    var t := Shifted(s, k, i);
    InsertedNonEmpty(s[..n], i, k);
    assert s[..n][..i] == s[..i] && t[..n] == Inserted(s[..i], k, s[i]) + s[..n][i + 1..];
    SortedBelow(s[..i], k, s[i]);
    InsertedSorted(s[..i], k, s[i]);
    assert t[..i + 1] == Inserted(s[..i], k, s[i]);
  }

  lemma ShiftedIs(s: seq<Range>, t: seq<Range>, k: nat, i: nat)
    requires k <= i < |s| == |t| && t[k] == s[i]
    requires forall m :: 0 <= m < k || i < m < |s| ==> t[m] == s[m]
    requires forall m :: k < m <= i ==> t[m] == s[m - 1]
    ensures t == Shifted(s, k, i)
  {}

  /** Moving an element within the table covers the same addresses. */
  lemma ShiftedCover(s: seq<Range>, k: nat, i: nat, n: nat)
    requires k <= i < n <= |s|
    ensures SameCover(Shifted(s, k, i)[..n], s[..n])
  {
    var t := Shifted(s, k, i);
    var right := s[i + 1..n];
    assert t[..n] == Inserted(s[..i], k, s[i]) + right;
    assert s[..n] == (s[..i] + [s[i]]) + right;
    forall a ensures Covers(t[..n], a) <==> Covers(s[..n], a) {
      CoverConcat(Inserted(s[..i], k, s[i]), right, a);
      InsertedCover(s[..i], k, s[i], a);
      CoverConcat(s[..i] + [s[i]], right, a);
      CoverAppend(s[..i], s[i], a);
    }
  }

  // ---- merging ----

  /** The last range absorbs r if r starts inside it or right behind it, else r is added. */
  function Merged(rs: seq<Range>, r: Range): seq<Range>
    requires rs != []
  {
    var last := rs[|rs| - 1];
    if r.start <= last.end then
      if r.end > last.end then rs[..|rs| - 1] + [Range(last.start, r.end)] else rs
    else rs + [r]
  }

  lemma MergedCover(rs: seq<Range>, r: Range, a: int)
    requires rs != [] && NonEmpty(rs) && r.start < r.end && rs[|rs| - 1].start <= r.start
    ensures Covers(Merged(rs, r), a) <==> Covers(rs, a) || In(r, a)
  {
    var last := rs[|rs| - 1];
    var front := rs[..|rs| - 1];
    assert rs == front + [last];
    CoverAppend(front, last, a);
    if r.start <= last.end {
      CoverAppend(front, Range(last.start, r.end), a);
    } else {
      CoverAppend(rs, r, a);
    }
  }

  lemma MergedGaps(rs: seq<Range>, r: Range)
    requires rs != [] && NonEmpty(rs) && Gaps(rs) && r.start < r.end && rs[|rs| - 1].start <= r.start
    ensures Gaps(Merged(rs, r)) && NonEmpty(Merged(rs, r)) && Merged(rs, r)[|Merged(rs, r)| - 1].start <= r.start
  {}

  predicate Within(r: Range, lo: int, hi: int) { r.start <= lo && hi <= r.end }

  /** A stretch of covered addresses lies in one range when the ranges do not touch. */
  lemma {:induction false} OneRange(rs: seq<Range>, lo: int, hi: int)
    requires Gaps(rs) && NonEmpty(rs) && lo < hi && forall a :: lo <= a < hi ==> Covers(rs, a)
    ensures exists i :: 0 <= i < |rs| && Within(rs[i], lo, hi)
    decreases hi - lo
  {
    assert Covers(rs, hi - 1);
    var j :| 0 <= j < |rs| && In(rs[j], hi - 1);
    if hi > lo + 1 {
      OneRange(rs, lo, hi - 1);
      var i :| 0 <= i < |rs| && Within(rs[i], lo, hi - 1);
      assert i == j;
    }
    assert Within(rs[j], lo, hi);
  }

  /** The usable ranges: what the boot loader reported, kept in a table of 32. */
  class UsableRanges {
    const ranges: array<Range>
    var count: nat

    ghost predicate Valid()
      reads this, ranges
    {
      ranges.Length == MAX_RANGES && count <= MAX_RANGES && NonEmpty(ranges[..count])
    }

    constructor ()
      ensures Valid() && count == 0 && fresh(ranges)
    {
      ranges := new Range[32](_ => Range(0, 0));
      count := 0;
    }

    /** record_usable_phys_range: an empty range is ignored, and so is one too many. */
    method Record(start: PhysAddr, end: PhysAddr) returns (dropped: bool)
      requires Valid()
      modifies this, ranges
      ensures Valid()
      ensures ranges[..count] ==
              old(ranges[..count]) + if start < end && old(count) < MAX_RANGES then [Range(start, end)] else []
      ensures dropped <==> start < end && old(count) == MAX_RANGES
    {
      if start >= end {
        return false;
      }
      if count >= MAX_RANGES {
        return true;
      }
      ranges[count] := Range(start, end);
      count := count + 1;
      dropped := false;
      assert ranges[..count] == old(ranges[..count]) + [Range(start, end)];
    }

    /** One round of the insertion sort: ranges[i] goes into its place among the first i. */
    method Insert(i: nat)
      requires Valid() && 0 < i < count && Sorted(ranges[..i])
      modifies ranges
      ensures Valid() && Sorted(ranges[..i + 1]) && SameCover(ranges[..count], old(ranges[..count]))
    {
      hide Sorted, NonEmpty, Covers, Inserted, Shifted;
      ghost var s := ranges[..];
      assert s[..i] == ranges[..i];
      assert s[..count] == ranges[..count];
      ghost var k := ShiftUp(i);
      ghost var t := ranges[..];
      ShiftedSorted(s, k, i, count);
      ShiftedCover(s, k, i, count);
      assert ranges[..i + 1] == t[..i + 1];
      assert ranges[..count] == t[..count];
    }

    /** Its loop: larger elements move up and ranges[i] takes the place k below them. */
    method ShiftUp(i: nat) returns (ghost k: nat)
      requires Valid() && 0 < i < count
      modifies ranges
      ensures k <= i && ranges[..] == Shifted(old(ranges[..]), k, i)
      ensures k > 0 ==> old(ranges[..])[k - 1].start <= old(ranges[..])[i].start
      ensures forall m :: k <= m < i ==> old(ranges[..])[i].start < old(ranges[..])[m].start
    {
      hide NonEmpty, Inserted, Shifted;
      var key := ranges[i];
      var j := i - 1;
      ghost var s := ranges[..];
      while j >= 0 && ranges[j].start > key.start
        invariant -1 <= j < i
        invariant forall k :: 0 <= k <= j || i < k < MAX_RANGES ==> ranges[k] == s[k]
        invariant forall k :: j + 1 < k <= i ==> ranges[k] == s[k - 1]
        invariant forall k :: j < k < i ==> key.start < s[k].start
      {
        ranges[j + 1] := ranges[j];
        j := j - 1;
      }
      ranges[j + 1] := key;
      k := j + 1;
      ShiftedIs(s, ranges[..], k, i);
    }

    /** The insertion sort. */
    method Sort()
      requires Valid() && count > 1
      modifies ranges
      ensures Valid() && Sorted(ranges[..count]) && SameCover(ranges[..count], old(ranges[..count]))
    {
      hide Covers, NonEmpty;
      var i := 1;
      while i < count
        invariant Valid() && 1 <= i <= count
        invariant Sorted(ranges[..i]) && SameCover(ranges[..count], old(ranges[..count]))
      {
        Insert(i);
        i := i + 1;
      }
    }

    /** sort_and_merge_usable_ranges: the same addresses, in order and with strict gaps. */
    method SortAndMerge()
      requires Valid()
      modifies this, ranges
      ensures Valid() && Gaps(ranges[..count]) && SameCover(ranges[..count], old(ranges[..count]))
    {
      hide Sorted, NonEmpty, Gaps, Covers, Merging;
      if count <= 1 {
        FewGaps(ranges[..count]);
        return;
      }
      Sort();
      ghost var sorted := ranges[..count];
      var write, i := 0, 1;
      assert ranges[..][..count] == sorted;
      MergingStart(ranges[..], sorted);
      while i < count
        invariant 0 <= write < i <= count == |sorted|
        invariant Merging(ranges[..], sorted, write, i)
      {
        ghost var s := ranges[..];
        MergingStep(s, sorted, write, i);
        ghost var table := MergedTable(s, write, i);
        if ranges[i].start <= ranges[write].end {
          if ranges[i].end > ranges[write].end {
            ranges[write] := Range(ranges[write].start, ranges[i].end);
          }
        } else {
          write := write + 1;
          ranges[write] := ranges[i];
        }
        assert ranges[..] == table;
        i := i + 1;
      }
      MergingEnd(ranges[..], sorted, write);
      assert ranges[..write + 1] == ranges[..][..write + 1];
      count := write + 1;
    }

    /** collect_usable_ranges_from_mmap: the first 32 usable pieces of the map. */
    method Collect(entries: seq<Entry>, limit: PhysAddr) returns (dropped: bool)
      requires Valid() && count == 0
      modifies this, ranges
      ensures Valid() && ranges[..count] == First(Wanted(entries, limit))
      ensures dropped <==> |Wanted(entries, limit)| > 32
      ensures forall a :: Covers(ranges[..count], a) ==> Reported(entries, limit, a)
      ensures !dropped ==> forall a :: Covers(ranges[..count], a) <==> Reported(entries, limit, a)
    {
      hide NonEmpty, Covers, Reported;
      var i := 0;
      dropped := false;
      while i < |entries|
        invariant Valid() && 0 <= i <= |entries|
        invariant ranges[..count] == First(Wanted(entries[..i], limit))
        invariant dropped <==> |Wanted(entries[..i], limit)| > MAX_RANGES
      {
        var entry := entries[i];
        assert entries[..i + 1][..i] == entries[..i];
        i := i + 1;
        if entry.len == 0 {
          continue;
        }
        if !entry.available {
          continue;
        }
        var start, end: int := entry.addr, (entry.addr + entry.len) % TWO64;
        if start >= limit {
          continue;
        }
        if end > limit {
          end := limit;
        }
        if end > start {
          var full := Record(start, end);
          dropped := dropped || full;
        }
      }
      assert entries[..i] == entries;
      forall a ensures Covers(ranges[..count], a) ==> Reported(entries, limit, a) {
        WantedIs(entries, limit, a);
        FirstOnly(Wanted(entries, limit), a);
      }
      forall a | !dropped ensures Covers(ranges[..count], a) <==> Reported(entries, limit, a) {
        WantedIs(entries, limit, a);
      }
    }

    /** physmem_build_ranges. */
    method Build(entries: seq<Entry>, limit: PhysAddr) returns (dropped: bool)
      requires Valid()
      modifies this, ranges
      ensures Valid() && Gaps(ranges[..count]) && SameCover(ranges[..count], Usable(entries, limit))
      ensures dropped <==> |Wanted(entries, limit)| > 32
      ensures forall a :: Covers(ranges[..count], a) ==> Ram(entries, limit, a)
      ensures !dropped ==> forall a :: Covers(ranges[..count], a) <==> Ram(entries, limit, a)
    {
      hide Gaps, Covers, Wanted, Ram, Reported;
      count := 0;
      dropped := Collect(entries, limit);
      if count == 0 && limit > 0 {
        var full := Record(0, limit);
      }
      assert ranges[..count] == Usable(entries, limit);
      forall a
        ensures Covers(Usable(entries, limit), a) ==> Ram(entries, limit, a)
        ensures !dropped ==> (Covers(Usable(entries, limit), a) <==> Ram(entries, limit, a))
      {
        UsableIs(entries, limit, a);
      }
      SortAndMerge();
    }
  }

  /** Halfway: the first write + 1 entries are the merge of the first i sorted ones, the rest
      are untouched. */
  ghost predicate Merging(s: seq<Range>, sorted: seq<Range>, write: nat, i: nat) {
    && write < i <= |sorted| <= |s|
    && Sorted(sorted) && NonEmpty(sorted)
    && s[i..|sorted|] == sorted[i..]
    && NonEmpty(s[..write + 1]) && Gaps(s[..write + 1])
    && s[write].start <= sorted[i - 1].start
    && SameCover(s[..write + 1], sorted[..i])
  }

  /** The entry after `write` and the table after one turn. */
  function MergedAt(s: seq<Range>, write: nat, i: nat): nat
    requires write < i < |s|
  {
    if s[i].start <= s[write].end then write else write + 1
  }

  function MergedTable(s: seq<Range>, write: nat, i: nat): seq<Range>
    requires write < i < |s|
  {
    if s[i].start > s[write].end then s[write + 1 := s[i]]
    else if s[i].end > s[write].end then s[write := Range(s[write].start, s[i].end)]
    else s
  }

  lemma MergingStart(s: seq<Range>, sorted: seq<Range>)
    requires 1 < |sorted| <= |s| && s[..|sorted|] == sorted && Sorted(sorted) && NonEmpty(sorted)
    ensures Merging(s, sorted, 0, 1)
  {
    assert s[..1] == sorted[..1];
    assert s[1..|sorted|] == s[..|sorted|][1..];
  }

  lemma MergingStep(s: seq<Range>, sorted: seq<Range>, write: nat, i: nat)
    requires Merging(s, sorted, write, i) && i < |sorted|
    ensures Merging(MergedTable(s, write, i), sorted, MergedAt(s, write, i), i + 1)
  {
    hide Sorted, NonEmpty, Gaps, Covers, Merged;
    var done := s[..write + 1];
    var t, w := MergedTable(s, write, i), MergedAt(s, write, i);
    assert s[i] == s[i..|sorted|][0] == sorted[i];
    MergeStep(done, sorted, i);
    MergedCases(done, sorted[i]);
    assert t[..w + 1] == Merged(done, sorted[i]);
    assert t[i + 1..|sorted|] == s[i..|sorted|][1..] == sorted[i + 1..];
  }

  lemma MergingEnd(s: seq<Range>, sorted: seq<Range>, write: nat)
    requires Merging(s, sorted, write, |sorted|)
    ensures NonEmpty(s[..write + 1]) && Gaps(s[..write + 1]) && SameCover(s[..write + 1], sorted)
  {
    assert sorted[..|sorted|] == sorted;
  }

  lemma FewGaps(rs: seq<Range>)
    requires |rs| <= 1
    ensures Gaps(rs)
  {}

  lemma MergedCases(rs: seq<Range>, r: Range)
    requires rs != []
    ensures var last := rs[|rs| - 1];
            Merged(rs, r) == (if r.start > last.end then rs + [r]
                              else if r.end > last.end then rs[..|rs| - 1] + [Range(last.start, r.end)] else rs)
  {}

  /** One turn of the merging loop. */
  lemma MergeStep(done: seq<Range>, sorted: seq<Range>, i: nat)
    requires done != [] && 0 < i < |sorted| && Sorted(sorted) && NonEmpty(sorted) && NonEmpty(done) && Gaps(done)
    requires done[|done| - 1].start <= sorted[i - 1].start && SameCover(done, sorted[..i])
    ensures var now := Merged(done, sorted[i]);
            Gaps(now) && NonEmpty(now) && now[|now| - 1].start <= sorted[i].start && SameCover(now, sorted[..i + 1])
  {
    var next := sorted[i];
    MergedGaps(done, next);
    forall a ensures Covers(Merged(done, next), a) <==> Covers(sorted[..i + 1], a) {
      MergedCover(done, next, a);
      assert sorted[..i + 1] == sorted[..i] + [next];
      CoverAppend(sorted[..i], next, a);
    }
  }

  // ---- release ----

  /** The lowest address that is released. */
  function Floor(kernelEnd: nat): nat { Max(RoundUp(kernelEnd), EARLY_END) }

  predicate PageOf(r: Range, floor: int, p: int) { PageIn(p, Max(r.start, floor), r.end) }

  /** A whole page above the floor all of whose addresses are usable. */
  ghost predicate UsablePage(rs: seq<Range>, floor: int, p: int) {
    Aligned(p) && floor <= p && forall a :: p <= a < p + PGSIZE ==> Covers(rs, a)
  }

  /** Such pages are the pages of single ranges, and of one range only. */
  lemma PagesOfRanges(rs: seq<Range>, floor: int, p: int)
    requires Gaps(rs) && NonEmpty(rs)
    ensures UsablePage(rs, floor, p) <==> exists i :: 0 <= i < |rs| && PageOf(rs[i], floor, p)
    ensures forall i, j :: 0 <= i < j < |rs| && PageOf(rs[i], floor, p) ==> !PageOf(rs[j], floor, p)
  {
    if UsablePage(rs, floor, p) {
      OneRange(rs, p, p + PGSIZE);
      var i :| 0 <= i < |rs| && Within(rs[i], p, p + PGSIZE);
      assert PageOf(rs[i], floor, p);
    }
    if i :| 0 <= i < |rs| && PageOf(rs[i], floor, p) {
      forall a | p <= a < p + PGSIZE ensures Covers(rs, a) { assert In(rs[i], a); }
    }
  }

  /** release_range_cb. */
  method ReleaseRange(kmem: FrameAllocator, start: PhysAddr, end: PhysAddr, minFree: nat) returns (ok: bool)
    requires kmem.Valid() && forall p :: PageOf(Range(start, end), minFree, p) ==> p !in kmem.free && kmem.Good(p)
    modifies kmem
    ensures ok && kmem.Valid()
    ensures forall p :: p in kmem.free <==> p in old(kmem.free) || PageOf(Range(start, end), minFree, p)
  {
    if end <= start || end <= minFree {
      return true;
    }
    var from: nat := if start < minFree then minFree else start;
    ok := kmem.FreeRange(from, end);
  }

  /** release_usable_memory_ranges, when the free list holds only early pages: no page makes
      kfree_page panic, and exactly the usable pages above the floor are added. */
  method Release(usable: UsableRanges, kmem: FrameAllocator) returns (ok: bool)
    requires usable.Valid() && Gaps(usable.ranges[..usable.count]) && kmem.Valid()
    requires forall a :: Covers(usable.ranges[..usable.count], a) ==> a < kmem.phystop
    requires forall p :: p in kmem.free ==> p < EARLY_END
    modifies kmem
    ensures ok && kmem.Valid()
    ensures forall p ::
              p in kmem.free <==>
              p in old(kmem.free) || UsablePage(usable.ranges[..usable.count], Floor(kmem.kernelEnd), p)
    ensures forall p :: p in old(kmem.free) ==> !UsablePage(usable.ranges[..usable.count], Floor(kmem.kernelEnd), p)
  {
    hide Covers, PageOf;
    var guard := RoundUp(kmem.kernelEnd);
    var minFree := if guard > EARLY_END then guard else EARLY_END;
    ghost var rs := usable.ranges[..usable.count];
    var i := 0;
    ok := true;
    while i < usable.count
      invariant 0 <= i <= usable.count && kmem.Valid() && ok
      invariant forall p ::
                  p in kmem.free <==> p in old(kmem.free) || exists k :: 0 <= k < i && PageOf(rs[k], minFree, p)
    {
      var r := usable.ranges[i];
      assert r == rs[i] == Range(r.start, r.end);
      forall p | PageOf(r, minFree, p) ensures p !in kmem.free && kmem.Good(p) {
        PagesOfRanges(rs, minFree, p);
        PageBounds(rs, i, minFree, p, kmem.phystop);
      }
      ok := ReleaseRange(kmem, r.start, r.end, minFree);
      i := i + 1;
    }
    forall p ensures UsablePage(rs, minFree, p) <==> exists k :: 0 <= k < usable.count && PageOf(rs[k], minFree, p) {
      PagesOfRanges(rs, minFree, p);
    }
  }

  lemma PageBounds(rs: seq<Range>, i: nat, floor: int, p: int, top: int)
    requires i < |rs| && PageOf(rs[i], floor, p) && forall a :: Covers(rs, a) ==> a < top
    ensures floor <= p < top && Aligned(p)
  {
    assert In(rs[i], p);
    assert Covers(rs, p);
  }

  /** What the kernel does with early pages before the usable ranges are released: its page
      tables and its stacks come from kalloc_page, and some pages go back. */
  datatype Use = Take | GiveBack(k: nat)

  /** Any such use. A GiveBack names a page by its place among those still taken. */
  method UseEarly(kmem: FrameAllocator, uses: seq<Use>) returns (taken: seq<int>)
    requires kmem.Valid()
    modifies kmem
    ensures kmem.Valid() && NoRepeats(taken)
    ensures forall p :: p in old(kmem.free) <==> p in kmem.free || p in taken
    ensures forall p :: p in taken ==> p !in kmem.free && kmem.Good(p)
  {
    hide Spells;
    taken := [];
    for i := 0 to |uses|
      invariant kmem.Valid() && NoRepeats(taken)
      invariant forall p :: p in old(kmem.free) <==> p in kmem.free || p in taken
      invariant forall p :: p in taken ==> p !in kmem.free && kmem.Good(p)
    {
      match uses[i]
      case Take =>
        ghost var was := kmem.free;
        var p := kmem.KallocPage();
        if p != NIL {
          assert was == [p] + kmem.free;
          taken := taken + [p];
        }
      case GiveBack(k) =>
        if k < |taken| {
          ghost var was := taken;
          var p := taken[k];
          taken := taken[..k] + taken[k + 1..];
          TakeOut(was, taken, k);
          var ok := kmem.KfreePage(p);
        }
    }
  }

  lemma TakeOut(s: seq<int>, t: seq<int>, k: nat)
    requires NoRepeats(s) && k < |s| && t == s[..k] + s[k + 1..]
    ensures NoRepeats(t) && forall p :: p in t <==> p in s && p != s[k]
  {
    forall p | p in s && p != s[k] ensures p in t {
      var i :| 0 <= i < |s| && s[i] == p;
      assert t[if i < k then i else i - 1] == p;
    }
  }

  /** Boot: the early pages below 8 MB, the kernel's use of them, then the usable ranges.
      debugEnd is where the kernel image and its symbols end. It panics exactly when RAM ends
      below an early page. */
  method Boot(entries: seq<Entry>, limit: PhysAddr, kernelEnd: nat, debugEnd: nat, phystop: nat, uses: seq<Use>)
    returns (kmem: FrameAllocator, ok: bool, dropped: bool, taken: seq<int>)
    requires kernelEnd <= debugEnd && limit <= phystop
    ensures fresh(kmem) && kmem.Valid()
    ensures ok <==> forall p :: PageIn(p, debugEnd, EARLY_END) ==> p < phystop
    ensures NoRepeats(taken) && forall p :: p in taken ==> PageIn(p, debugEnd, EARLY_END)
    ensures ok ==> forall p :: (p in kmem.free <==>
              || (p % 4096 == 0 && debugEnd <= p && p + 4096 <= 0x80_0000 && p !in taken)
              || UsablePage(Usable(entries, limit), Floor(kernelEnd), p))
    ensures ok ==> forall p :: p in taken ==> p !in kmem.free
    ensures dropped <==> |Wanted(entries, limit)| > 32
    ensures ok ==> forall p :: p in kmem.free ==> p + 4096 <= 0x80_0000 || RamPage(entries, limit, kernelEnd, p)
    ensures ok && !dropped ==> forall p :: RamPage(entries, limit, kernelEnd, p) ==> p in kmem.free
  {
    hide Usable, Gaps, Covers, Spells, RamPage, UsablePage;
    var usable := new UsableRanges();
    dropped := usable.Build(entries, limit);
    kmem := new FrameAllocator(kernelEnd, phystop);
    taken := [];
    ok := kmem.FreeRange(debugEnd, EARLY_END);
    assert forall p :: PageIn(p, debugEnd, EARLY_END) ==> (kmem.Good(p) <==> p < phystop);
    if !ok {
      return;
    }
    taken := UseEarly(kmem, uses);
    ghost var rs := usable.ranges[..usable.count];
    forall a | Covers(rs, a) ensures a < phystop { UsableBelow(entries, limit, a); }
    ok := Release(usable, kmem);
    forall p ensures UsablePage(rs, Floor(kernelEnd), p) <==> UsablePage(Usable(entries, limit), Floor(kernelEnd), p) {
      SamePages(rs, Usable(entries, limit), Floor(kernelEnd), p);
    }
    forall p | p in taken ensures !UsablePage(rs, Floor(kernelEnd), p) {
      NotEarly(rs, kernelEnd, p);
    }
    forall p
      ensures UsablePage(Usable(entries, limit), Floor(kernelEnd), p) ==> RamPage(entries, limit, kernelEnd, p)
      ensures !dropped && RamPage(entries, limit, kernelEnd, p) ==>
                UsablePage(Usable(entries, limit), Floor(kernelEnd), p)
    {
      RamPages(entries, limit, kernelEnd, p);
    }
  }

  /** A whole page of RAM, above the kernel and from 8 MB on. */
  ghost predicate RamPage(entries: seq<Entry>, limit: PhysAddr, kernelEnd: nat, p: int) {
    && p % 4096 == 0 && kernelEnd <= p && 0x80_0000 <= p
    && forall a :: p <= a < p + 4096 ==> Ram(entries, limit, a)
  }

  lemma NotEarly(rs: seq<Range>, kernelEnd: nat, p: int)
    requires p < EARLY_END
    ensures !UsablePage(rs, Floor(kernelEnd), p)
  {}

  lemma RamPages(entries: seq<Entry>, limit: PhysAddr, kernelEnd: nat, p: int)
    ensures UsablePage(Usable(entries, limit), Floor(kernelEnd), p) ==> RamPage(entries, limit, kernelEnd, p)
    ensures |Wanted(entries, limit)| <= MAX_RANGES && RamPage(entries, limit, kernelEnd, p) ==>
              UsablePage(Usable(entries, limit), Floor(kernelEnd), p)
  {
    hide Usable, Ram, Covers;
    forall a
      ensures Covers(Usable(entries, limit), a) ==> Ram(entries, limit, a)
      ensures |Wanted(entries, limit)| <= MAX_RANGES ==>
                (Covers(Usable(entries, limit), a) <==> Ram(entries, limit, a))
    {
      UsableIs(entries, limit, a);
    }
    if Aligned(p) { AboveKernel(kernelEnd, p); }
  }

  lemma AboveKernel(kernelEnd: nat, p: int)
    requires Aligned(p)
    ensures RoundUp(kernelEnd) <= p <==> kernelEnd <= p
  {
    if kernelEnd <= p { NextPage(p, RoundUp(kernelEnd)); }
  }

  lemma SamePages(rs: seq<Range>, ts: seq<Range>, floor: int, p: int)
    requires SameCover(rs, ts)
    ensures UsablePage(rs, floor, p) <==> UsablePage(ts, floor, p)
  {}
}
