/** The user half of two-level page tables, as values: who owns which frame, and what each
    change to a directory or table does to the mappings. */
module PageSpace {
  const ENTRIES := 1024
  const USER := 512              // directory entries below KERNBASE

  type Data = seq<int>

  /** A page-table entry: PTE_ADDR and PTE_FLAGS. */
  datatype Entry = Entry(addr: int, flags: nat)

  const ZERO := Entry(0, 0)

  predicate P(e: Entry) { e.flags % 2 == 1 }

  type PTable = s: seq<Entry> | |s| == 1024 witness seq(1024, _ => Entry(0, 0))

  function Blank(): (t: PTable)
    ensures forall i :: 0 <= i < 1024 ==> t[i] == ZERO
  {
    seq(1024, _ => Entry(0, 0))
  }

  /** What a frame is for: a directory, table i of directory d, or page (i, j) of d. */
  datatype Role = Dir | Table(d: int, i: int) | Leaf(d: int, i: int, j: int)

  datatype Space = Space(tables: map<int, PTable>, data: map<int, Data>, own: map<int, Role>)

  predicate IsDir(s: Space, d: int) { d in s.own && s.own[d] == Dir && d in s.tables }

  predicate Slot(i: int, j: int) { 0 <= i < USER && 0 <= j < ENTRIES }

  function PdeAt(s: Space, d: int, i: int): Entry {
    if d in s.tables && 0 <= i < ENTRIES then s.tables[d][i] else ZERO
  }

  /** What hardware makes of an entry: nothing unless it is present. */
  function Shown(e: Entry): Entry { if P(e) then e else ZERO }

  /** The mapping of page (i, j) of d, or zero. */
  function Walk(s: Space, d: int, i: int, j: int): Entry {
    var e := PdeAt(s, d, i);
    if P(e) then Shown(PdeAt(s, e.addr, j)) else ZERO
  }

  // ---- the invariant ----

  /** Every owned frame is where its role says, */
  ghost predicate Backed(s: Space, f: int)
    requires f in s.own
  {
    match s.own[f]
    case Dir => f in s.tables
    case Table(d, i) => 0 <= i < USER && IsDir(s, d) && f in s.tables && P(PdeAt(s, d, i)) && PdeAt(s, d, i).addr == f
    case Leaf(d, i, j) => Slot(i, j) && IsDir(s, d) && f in s.data && P(Walk(s, d, i, j)) && Walk(s, d, i, j).addr == f
  }

  ghost predicate TableOwned(s: Space, d: int, i: int) {
    P(PdeAt(s, d, i)) ==> PdeAt(s, d, i).addr in s.own && s.own[PdeAt(s, d, i).addr] == Table(d, i)
  }

  ghost predicate LeafOwned(s: Space, d: int, i: int, j: int, top: int) {
    P(Walk(s, d, i, j)) ==>
      Walk(s, d, i, j).addr >= top || (Walk(s, d, i, j).addr in s.own && s.own[Walk(s, d, i, j).addr] == Leaf(d, i, j))
  }

  ghost predicate AllBacked(s: Space, top: int) { forall f :: f in s.own ==> Backed(s, f) && f < top }
  ghost predicate TablesOwned(s: Space) { forall d, i :: IsDir(s, d) && 0 <= i < USER ==> TableOwned(s, d, i) }
  ghost predicate LeavesOwned(s: Space, top: int) {
    forall d, i, j :: IsDir(s, d) && Slot(i, j) ==> LeafOwned(s, d, i, j, top)
  }

  /** and every present entry of the user half below `top` owns its frame. So no frame is
      reachable in two ways. */
  ghost predicate Sound(s: Space, top: int) { AllBacked(s, top) && TablesOwned(s) && LeavesOwned(s, top) }

  /** The directories of s map the same pages in t, except for those of d where told. */
  ghost predicate SameWalks(s: Space, t: Space) {
    forall e, i, j :: IsDir(s, e) && Slot(i, j) ==> Walk(t, e, i, j) == Walk(s, e, i, j)
  }

  // ---- a new page table ----

  function AddTable(s: Space, d: int, i: int, f: int): Space
    requires d in s.tables && 0 <= i < ENTRIES
  {
    s.(tables := s.tables[f := Blank()][d := s.tables[d][i := Entry(f, 7)]], own := s.own[f := Table(d, i)])
  }

  lemma AddTableWalk(s: Space, d: int, i: int, f: int, top: int)
    requires Sound(s, top) && IsDir(s, d) && 0 <= i < USER && !P(PdeAt(s, d, i)) && f !in s.own && f < top
    ensures SameWalks(s, AddTable(s, d, i, f))
    ensures forall e, k :: IsDir(s, e) && 0 <= k < USER && (e != d || k != i) ==>
          PdeAt(AddTable(s, d, i, f), e, k) == PdeAt(s, e, k)
    ensures PdeAt(AddTable(s, d, i, f), d, i) == Entry(f, 7)
  {
    var t := AddTable(s, d, i, f);
    forall e, k, j | IsDir(s, e) && Slot(k, j) ensures Walk(t, e, k, j) == Walk(s, e, k, j) {
      assert TableOwned(s, e, k);
    }
  }

  lemma AddTableSound(s: Space, d: int, i: int, f: int, top: int)
    requires Sound(s, top) && IsDir(s, d) && 0 <= i < USER && !P(PdeAt(s, d, i)) && f !in s.own && f < top
    ensures Sound(AddTable(s, d, i, f), top)
  {
    hide Sound;
    var t := AddTable(s, d, i, f);
    AddTableWalk(s, d, i, f, top);
    assert AllBacked(s, top) && TablesOwned(s) && LeavesOwned(s, top) by { SoundParts(s, top); }
    forall g | g in t.own ensures Backed(t, g) && g < top { if g != f { assert Backed(s, g); } }
    forall e, k | IsDir(t, e) && 0 <= k < USER ensures TableOwned(t, e, k) {
      assert IsDir(s, e) && TableOwned(s, e, k);
    }
    forall e, k, j | IsDir(t, e) && Slot(k, j) ensures LeafOwned(t, e, k, j, top) {
      assert IsDir(s, e) && LeafOwned(s, e, k, j, top);
    }
    SoundWhole(t, top);
  }

  lemma SoundParts(s: Space, top: int)
    requires Sound(s, top)
    ensures AllBacked(s, top) && TablesOwned(s) && LeavesOwned(s, top)
  {}

  lemma SoundWhole(s: Space, top: int)
    requires AllBacked(s, top) && TablesOwned(s) && LeavesOwned(s, top)
    ensures Sound(s, top)
  {}

  // ---- an entry of a page table ----

  /** Entry (i, j) of d becomes e. */
  function Store(s: Space, d: int, i: int, j: int, e: Entry): Space
    requires P(PdeAt(s, d, i)) && PdeAt(s, d, i).addr in s.tables && 0 <= j < ENTRIES
  {
    var pt := PdeAt(s, d, i).addr;
    s.(tables := s.tables[pt := s.tables[pt][j := e]])
  }

  lemma StoreWalk(s: Space, d: int, i: int, j: int, e: Entry, top: int)
    requires Sound(s, top) && IsDir(s, d) && Slot(i, j) && P(PdeAt(s, d, i))
    ensures PdeAt(s, d, i).addr in s.tables
    ensures var t := Store(s, d, i, j, e);
            && (forall c, k :: IsDir(s, c) && 0 <= k < USER ==> PdeAt(t, c, k) == PdeAt(s, c, k))
            && (forall c, k, l :: IsDir(s, c) && Slot(k, l) ==>
                 Walk(t, c, k, l) == if c == d && k == i && l == j then Shown(e) else Walk(s, c, k, l))
  {
    assert TableOwned(s, d, i);
    var pt := PdeAt(s, d, i).addr;
    assert Backed(s, pt);
    var t := Store(s, d, i, j, e);
    forall c, k, l | IsDir(s, c) && Slot(k, l)
      ensures Walk(t, c, k, l) == if c == d && k == i && l == j then Shown(e) else Walk(s, c, k, l)
    {
      assert TableOwned(s, c, k);
    }
  }

  /** Mapping a frame that nobody owns where nothing is mapped. Frames from `top` on belong to
      devices and are not owned. */
  function AddLeaf(s: Space, d: int, i: int, j: int, e: Entry, data: Data, top: int): Space
    requires P(PdeAt(s, d, i)) && PdeAt(s, d, i).addr in s.tables && 0 <= j < ENTRIES
  {
    var t := Store(s, d, i, j, e);
    if e.addr < top then t.(data := t.data[e.addr := data], own := t.own[e.addr := Leaf(d, i, j)]) else t
  }

  lemma AddLeafWalk(s: Space, d: int, i: int, j: int, e: Entry, data: Data, top: int)
    requires Sound(s, top) && IsDir(s, d) && Slot(i, j) && P(PdeAt(s, d, i))
    ensures PdeAt(s, d, i).addr in s.tables
    ensures var t := AddLeaf(s, d, i, j, e, data, top);
            && (forall c, k :: IsDir(s, c) && 0 <= k < USER ==> PdeAt(t, c, k) == PdeAt(s, c, k))
            && (forall c, k, l :: IsDir(s, c) && Slot(k, l) ==>
                 Walk(t, c, k, l) == if c == d && k == i && l == j then Shown(e) else Walk(s, c, k, l))
  {
    StoreWalk(s, d, i, j, e, top);
    var t, u := AddLeaf(s, d, i, j, e, data, top), Store(s, d, i, j, e);
    assert t.tables == u.tables;
    hide Store, AddLeaf;
    forall c, k, l ensures Walk(t, c, k, l) == Walk(u, c, k, l) {}
    forall c, k ensures PdeAt(t, c, k) == PdeAt(u, c, k) {}
  }

  lemma AddLeafSound(s: Space, d: int, i: int, j: int, e: Entry, data: Data, top: int)
    requires Sound(s, top) && IsDir(s, d) && Slot(i, j) && P(PdeAt(s, d, i)) && P(e) && !P(Walk(s, d, i, j))
    requires e.addr < top ==> e.addr !in s.own
    ensures PdeAt(s, d, i).addr in s.tables && Sound(AddLeaf(s, d, i, j, e, data, top), top)
  {
    hide Sound, Walk, PdeAt;
    AddLeafWalk(s, d, i, j, e, data, top);
    var t := AddLeaf(s, d, i, j, e, data, top);
    assert AllBacked(s, top) && TablesOwned(s) && LeavesOwned(s, top) by { SoundParts(s, top); }
    forall g | g in t.own ensures Backed(t, g) && g < top {
      if g != e.addr || e.addr >= top { assert g in s.own && Backed(s, g); }
    }
    forall c, k | IsDir(t, c) && 0 <= k < USER ensures TableOwned(t, c, k) {
      assert IsDir(s, c) && TableOwned(s, c, k);
    }
    forall c, k, l | IsDir(t, c) && Slot(k, l) ensures LeafOwned(t, c, k, l, top) {
      assert IsDir(s, c) && LeafOwned(s, c, k, l, top);
    }
    SoundWhole(t, top);
  }

  /** Unmapping: the entry becomes zero and its frame, if owned, nobody's. */
  function DropLeaf(s: Space, d: int, i: int, j: int, top: int): Space
    requires P(PdeAt(s, d, i)) && PdeAt(s, d, i).addr in s.tables && 0 <= j < ENTRIES
  {
    var t := Store(s, d, i, j, ZERO);
    var f := Walk(s, d, i, j).addr;
    if f < top then t.(own := t.own - {f}) else t
  }

  lemma DropLeafWalk(s: Space, d: int, i: int, j: int, top: int)
    requires Sound(s, top) && IsDir(s, d) && Slot(i, j) && P(PdeAt(s, d, i))
    ensures PdeAt(s, d, i).addr in s.tables
    ensures var t := DropLeaf(s, d, i, j, top);
            && (forall c, k :: IsDir(s, c) && 0 <= k < USER ==> PdeAt(t, c, k) == PdeAt(s, c, k))
            && (forall c, k, l :: IsDir(s, c) && Slot(k, l) ==>
                 Walk(t, c, k, l) == if c == d && k == i && l == j then ZERO else Walk(s, c, k, l))
  {
    StoreWalk(s, d, i, j, ZERO, top);
    var t, u := DropLeaf(s, d, i, j, top), Store(s, d, i, j, ZERO);
    assert t.tables == u.tables;
    hide Store, DropLeaf;
    forall c, k, l ensures Walk(t, c, k, l) == Walk(u, c, k, l) {}
    forall c, k ensures PdeAt(t, c, k) == PdeAt(u, c, k) {}
  }

  lemma DropLeafSound(s: Space, d: int, i: int, j: int, top: int)
    requires Sound(s, top) && IsDir(s, d) && Slot(i, j) && P(PdeAt(s, d, i)) && P(Walk(s, d, i, j))
    ensures PdeAt(s, d, i).addr in s.tables && Sound(DropLeaf(s, d, i, j, top), top)
    ensures Walk(s, d, i, j).addr < top ==>
              Walk(s, d, i, j).addr in s.own && s.own[Walk(s, d, i, j).addr] == Leaf(d, i, j)
  {
    hide Sound, Walk, PdeAt;
    DropLeafWalk(s, d, i, j, top);
    var t := DropLeaf(s, d, i, j, top);
    assert AllBacked(s, top) && TablesOwned(s) && LeavesOwned(s, top) by { SoundParts(s, top); }
    assert LeafOwned(s, d, i, j, top);
    forall g | g in t.own ensures Backed(t, g) && g < top { assert g in s.own && Backed(s, g); }
    forall c, k | IsDir(t, c) && 0 <= k < USER ensures TableOwned(t, c, k) {
      assert IsDir(s, c) && TableOwned(s, c, k);
    }
    forall c, k, l | IsDir(t, c) && Slot(k, l) ensures LeafOwned(t, c, k, l, top) {
      assert IsDir(s, c) && LeafOwned(s, c, k, l, top);
    }
    SoundWhole(t, top);
  }

  // ---- directories ----

  function AddDir(s: Space, d: int): Space { s.(tables := s.tables[d := Blank()], own := s.own[d := Dir]) }

  lemma AddDirSound(s: Space, d: int, top: int)
    requires Sound(s, top) && d !in s.own && d < top
    ensures Sound(AddDir(s, d), top) && IsDir(AddDir(s, d), d) && SameWalks(s, AddDir(s, d))
    ensures forall i, j :: Slot(i, j) ==> !P(Walk(AddDir(s, d), d, i, j))
  {
    var t := AddDir(s, d);
    forall e, i, j | IsDir(s, e) && Slot(i, j) ensures Walk(t, e, i, j) == Walk(s, e, i, j) {
      assert TableOwned(s, e, i);
    }
    forall i | 0 <= i < USER ensures !P(PdeAt(t, d, i)) {}
    forall g | g in t.own ensures Backed(t, g) && g < top { if g != d { assert Backed(s, g); } }
    forall e, k | IsDir(t, e) && 0 <= k < USER ensures TableOwned(t, e, k) {
      if e != d { assert IsDir(s, e) && TableOwned(s, e, k); }
    }
    forall e, k, j | IsDir(t, e) && Slot(k, j) ensures LeafOwned(t, e, k, j, top) {
      if e != d { assert IsDir(s, e) && LeafOwned(s, e, k, j, top); }
    }
  }

  /** A directory with its tables. */
  function Trunk(s: Space, d: int): set<int> {
    set f | f in s.own && (f == d || (s.own[f].Table? && s.own[f].d == d))
  }

  function DropDir(s: Space, d: int): Space { s.(own := s.own - Trunk(s, d)) }

  lemma DropDirSound(s: Space, d: int, top: int)
    requires Sound(s, top) && IsDir(s, d) && forall i, j :: Slot(i, j) ==> !P(Walk(s, d, i, j))
    ensures Sound(DropDir(s, d), top)
  {
    var t := DropDir(s, d);
    forall g | g in t.own ensures Backed(t, g) && g < top { assert g in s.own && Backed(s, g); }
    forall e, k | IsDir(t, e) && 0 <= k < USER ensures TableOwned(t, e, k) {
      assert IsDir(s, e) && TableOwned(s, e, k);
    }
    forall e, k, j | IsDir(t, e) && Slot(k, j) ensures LeafOwned(t, e, k, j, top) {
      assert IsDir(s, e) && LeafOwned(s, e, k, j, top);
    }
  }

  // ---- page numbers ----

  function Pno(i: int, j: int): int { i * ENTRIES + j }
  function PDX(p: int): int { p / ENTRIES }
  function PTX(p: int): int { p % ENTRIES }

  predicate InRange(i: int, j: int, lo: int, hi: int) { lo <= Pno(i, j) < hi }

  lemma PnoSplits(p: int)
    requires 0 <= p < USER * ENTRIES
    ensures Slot(PDX(p), PTX(p)) && Pno(PDX(p), PTX(p)) == p
    ensures forall i, j :: Slot(i, j) && Pno(i, j) == p ==> i == PDX(p) && j == PTX(p)
  {}

  /** The entry of the p-th page, which holds the bytes from 4096 * p on. */
  function PageAt(s: Space, d: int, p: nat): Entry { Walk(s, d, p / 1024, p % 1024) }

  // ---- giving pages back ----

  /** The frames of d's pages from lo up to hi. */
  predicate LeafIn(r: Role, d: int, lo: int, hi: int) { r.Leaf? && r.d == d && InRange(r.i, r.j, lo, hi) }

  /** s is s0 without those pages. */
  ghost predicate Trimmed(s0: Space, s: Space, d: int, lo: int, hi: int) {
    && s.data == s0.data
    && (forall c :: IsDir(s0, c) <==> IsDir(s, c))
    && (forall c, i :: IsDir(s0, c) && 0 <= i < USER ==> PdeAt(s, c, i) == PdeAt(s0, c, i))
    && (forall c, i, j :: IsDir(s0, c) && Slot(i, j) ==>
         Walk(s, c, i, j) == if c == d && InRange(i, j, lo, hi) then ZERO else Walk(s0, c, i, j))
    && (forall f :: f in s.own <==> f in s0.own && !LeafIn(s0.own[f], d, lo, hi))
    && (forall f :: f in s.own ==> s.own[f] == s0.own[f])
  }

  lemma TrimStart(s: Space, d: int, lo: int)
    ensures Trimmed(s, s, d, lo, lo)
  {}

  lemma OneLeaf(s: Space, d: int, i: int, j: int, top: int)
    requires Sound(s, top)
    ensures forall f :: f in s.own && s.own[f] == Leaf(d, i, j) ==>
          P(Walk(s, d, i, j)) && Walk(s, d, i, j).addr == f && f < top
  {
    forall f | f in s.own && s.own[f] == Leaf(d, i, j)
      ensures P(Walk(s, d, i, j)) && Walk(s, d, i, j).addr == f && f < top
    {
      assert Backed(s, f);
    }
  }

  lemma TrimStep(s0: Space, s: Space, d: int, lo: int, p: int, top: int)
    requires Sound(s, top) && IsDir(s0, d) && Trimmed(s0, s, d, lo, p) && lo <= p && 0 <= p < USER * ENTRIES
    requires P(PdeAt(s, d, PDX(p))) && P(Walk(s, d, PDX(p), PTX(p)))
    ensures PdeAt(s, d, PDX(p)).addr in s.tables && 0 <= PTX(p) < ENTRIES
    ensures Trimmed(s0, DropLeaf(s, d, PDX(p), PTX(p), top), d, lo, p + 1)
  {
    PnoSplits(p);
    var i, j := PDX(p), PTX(p);
    hide Sound, Walk, PdeAt;
    DropLeafWalk(s, d, i, j, top);
    DropLeafSound(s, d, i, j, top);
    OneLeaf(s, d, i, j, top);
    var t := DropLeaf(s, d, i, j, top);
    forall f ensures f in t.own <==> f in s0.own && !LeafIn(s0.own[f], d, lo, p + 1) {
      if f in s.own && LeafIn(s.own[f], d, lo, p + 1) { assert Backed(s, f) by { LeafSlot(s, f, top); } }
    }
    assert forall c :: IsDir(t, c) <==> IsDir(s, c);
  }

  lemma LeafSlot(s: Space, f: int, top: int)
    requires Sound(s, top) && f in s.own
    ensures Backed(s, f) && f < top
  {}

  /** A page that is not mapped needs nothing, */
  lemma TrimSkip(s0: Space, s: Space, d: int, lo: int, p: int, top: int)
    requires Sound(s, top) && IsDir(s0, d) && Trimmed(s0, s, d, lo, p) && lo <= p && 0 <= p < USER * ENTRIES
    requires !P(Walk(s, d, PDX(p), PTX(p)))
    ensures Trimmed(s0, s, d, lo, p + 1)
  {
    PnoSplits(p);
    var i, j := PDX(p), PTX(p);
    OneLeaf(s, d, i, j, top);
    assert Walk(s, d, i, j) == ZERO;
    hide Sound, Walk, PdeAt;
    forall f | f in s.own ensures !LeafIn(s.own[f], d, lo, p + 1) {
      LeafSlot(s, f, top);
    }
  }

  /** nor does a whole table that is not there, or a part of it. */
  lemma TrimSkipTable(s0: Space, s: Space, d: int, lo: int, p: int, hi: int, top: int)
    requires Sound(s, top) && IsDir(s0, d) && Trimmed(s0, s, d, lo, p) && lo <= p && 0 <= p < USER * ENTRIES
    requires !P(PdeAt(s, d, PDX(p))) && p <= hi <= (PDX(p) + 1) * ENTRIES
    ensures Trimmed(s0, s, d, lo, hi)
  {
    forall i, j | Slot(i, j) && InRange(i, j, p, hi) ensures Walk(s, d, i, j) == ZERO && i == PDX(p) {}
    hide Sound, PdeAt;
    forall f | f in s.own ensures !LeafIn(s.own[f], d, lo, hi) {
      LeafSlot(s, f, top);
    }
  }

  // ---- filling pages in ----

  const PAGE_WORDS := 1024

  /** A page of zeros. */
  function ZeroPage(): (d: Data)
    ensures |d| == 1024 && forall i :: 0 <= i < 1024 ==> d[i] == 0
  {
    seq(PAGE_WORDS, _ => 0)
  }

  /** Flags and contents a new page is to have. */
  datatype Want = Want(flags: nat, data: Data)

  /** A page mapped since s0: on a frame of its own, as wanted. */
  ghost predicate NewPage(s0: Space, s: Space, e: Entry, w: Want, top: int) {
    && P(e) && e.flags == w.flags && e.addr < top
    && e.addr !in s0.own && e.addr in s.own && e.addr in s.data && s.data[e.addr] == w.data
  }

  /** What was owned in s0 still is, for the same purpose and with the same contents. */
  ghost predicate Kept(s0: Space, s: Space) {
    forall f :: f in s0.own ==>
      f in s.own && s.own[f] == s0.own[f] && (f in s0.data ==> f in s.data && s.data[f] == s0.data[f])
  }

  /** s is s0 with pages lo up to hi of d mapped as wanted. */
  ghost predicate Filled(s0: Space, s: Space, d: int, lo: int, hi: int, want: (int, int) -> Want, top: int) {
    && Kept(s0, s)
    && (forall c :: IsDir(s0, c) <==> IsDir(s, c))
    && (forall c, i, j :: IsDir(s0, c) && Slot(i, j) && !(c == d && InRange(i, j, lo, hi)) ==>
         Walk(s, c, i, j) == Walk(s0, c, i, j))
    && (forall i, j :: Slot(i, j) && InRange(i, j, lo, hi) ==> NewPage(s0, s, Walk(s, d, i, j), want(i, j), top))
    && (forall f :: f in s.own && f !in s0.own ==>
         (s.own[f].Table? && s.own[f].d == d) || LeafIn(s.own[f], d, lo, hi))
  }

  lemma FillStart(s: Space, d: int, lo: int, want: (int, int) -> Want, top: int)
    ensures Filled(s, s, d, lo, lo, want, top)
  {}

  function WithData(s: Space, f: int, data: Data): Space { s.(data := s.data[f := data]) }

  lemma WithDataSound(s: Space, f: int, data: Data, top: int)
    requires Sound(s, top) && f !in s.own
    ensures Sound(WithData(s, f, data), top) && SameWalks(s, WithData(s, f, data))
    ensures forall d, i :: PdeAt(WithData(s, f, data), d, i) == PdeAt(s, d, i)
  {
    var t := WithData(s, f, data);
    forall g | g in t.own ensures Backed(t, g) && g < top { assert g in s.own && Backed(s, g); }
    forall e, k | IsDir(t, e) && 0 <= k < USER ensures TableOwned(t, e, k) {
      assert IsDir(s, e) && TableOwned(s, e, k);
    }
    forall e, k, j | IsDir(t, e) && Slot(k, j) ensures LeafOwned(t, e, k, j, top) {
      assert IsDir(s, e) && LeafOwned(s, e, k, j, top);
    }
  }

  lemma FillData(s0: Space, s: Space, d: int, lo: int, p: int, want: (int, int) -> Want, top: int, f: int, data: Data)
    requires IsDir(s0, d) && Filled(s0, s, d, lo, p, want, top) && f !in s.own
    ensures Filled(s0, WithData(s, f, data), d, lo, p, want, top)
  {
    var t := WithData(s, f, data);
    assert t.tables == s.tables;
    forall c, i, j ensures Walk(t, c, i, j) == Walk(s, c, i, j) {}
    hide Walk;
    forall i, j | Slot(i, j) && InRange(i, j, lo, p) ensures NewPage(s0, t, Walk(t, d, i, j), want(i, j), top) {
      assert NewPage(s0, s, Walk(s, d, i, j), want(i, j), top);
    }
  }

  lemma FillTable(s0: Space, s: Space, d: int, lo: int, p: int, want: (int, int) -> Want, top: int, i: int, f: int)
    requires IsDir(s0, d) && Filled(s0, s, d, lo, p, want, top)
    requires Sound(s, top) && IsDir(s, d) && 0 <= i < USER && !P(PdeAt(s, d, i)) && f !in s.own && f < top
    ensures Filled(s0, AddTable(s, d, i, f), d, lo, p, want, top)
  {
    hide Sound, Walk, PdeAt;
    AddTableWalk(s, d, i, f, top);
    var t := AddTable(s, d, i, f);
    assert forall c :: IsDir(t, c) <==> IsDir(s, c);
    forall k, j | Slot(k, j) && InRange(k, j, lo, p) ensures NewPage(s0, t, Walk(t, d, k, j), want(k, j), top) {
      assert NewPage(s0, s, Walk(s, d, k, j), want(k, j), top);
    }
  }

  lemma FillLeaf(s0: Space, s: Space, d: int, lo: int, p: int, want: (int, int) -> Want, top: int, e: Entry, data: Data)
    requires IsDir(s0, d) && Filled(s0, s, d, lo, p, want, top) && Sound(s, top) && IsDir(s, d)
    requires lo <= p && 0 <= p < USER * ENTRIES && P(PdeAt(s, d, PDX(p)))
    requires P(e) && e.addr !in s.own && e.addr < top && want(PDX(p), PTX(p)) == Want(e.flags, data)
    ensures PdeAt(s, d, PDX(p)).addr in s.tables && 0 <= PTX(p) < ENTRIES
    ensures Filled(s0, AddLeaf(s, d, PDX(p), PTX(p), e, data, top), d, lo, p + 1, want, top)
  {
    PnoSplits(p);
    var i, j := PDX(p), PTX(p);
    hide Sound, Walk, PdeAt;
    AddLeafWalk(s, d, i, j, e, data, top);
    var t := AddLeaf(s, d, i, j, e, data, top);
    assert Shown(e) == e;
    assert forall c :: IsDir(t, c) <==> IsDir(s, c);
    forall k, l | Slot(k, l) && InRange(k, l, lo, p + 1) ensures NewPage(s0, t, Walk(t, d, k, l), want(k, l), top) {
      if Pno(k, l) != p { assert NewPage(s0, s, Walk(s, d, k, l), want(k, l), top); }
    }
  }

  // ---- undoing ----

  ghost predicate Unmapped(s: Space, d: int, lo: int, hi: int) {
    forall i, j :: Slot(i, j) && InRange(i, j, lo, hi) ==> !P(Walk(s, d, i, j))
  }

  /** s is s0 with pages lo up to hi of d unmapped, and perhaps more page tables. */
  ghost predicate Undone(s0: Space, s: Space, d: int, lo: int, hi: int) {
    && (forall c :: IsDir(s0, c) <==> IsDir(s, c))
    && (forall c, i, j :: IsDir(s0, c) && Slot(i, j) ==>
         Walk(s, c, i, j) == if c == d && InRange(i, j, lo, hi) then ZERO else Walk(s0, c, i, j))
    && (forall f :: f in s0.own && !LeafIn(s0.own[f], d, lo, hi) ==>
         f in s.own && s.own[f] == s0.own[f] && (f in s0.data ==> f in s.data && s.data[f] == s0.data[f]))
    && (forall f :: f in s.own && f !in s0.own ==> s.own[f].Table? && s.own[f].d == d)
  }

  /** Filling part of a range and then trimming all of it. */
  lemma FilledTrimmed(s0: Space, s1: Space, s: Space, d: int, lo: int, p: int, hi: int,
                      want: (int, int) -> Want, top: int)
    requires IsDir(s0, d) && lo <= p <= hi && Filled(s0, s1, d, lo, p, want, top) && Trimmed(s1, s, d, lo, hi)
    ensures Undone(s0, s, d, lo, hi)
  {
    hide Walk, PdeAt, NewPage;
  }

  /** The failed call has restored the address space exactly if there was nothing in the range,
      and then nothing that was owned is lost either. */
  lemma UndoneRestores(s0: Space, s: Space, d: int, lo: int, hi: int, top: int)
    requires Sound(s0, top) && IsDir(s0, d) && Undone(s0, s, d, lo, hi)
    ensures SameWalks(s0, s) <==> Unmapped(s0, d, lo, hi)
    ensures Unmapped(s0, d, lo, hi) ==> Kept(s0, s)
  {
    forall i, j | Slot(i, j) && InRange(i, j, lo, hi)
      ensures Walk(s, d, i, j) == ZERO && (!P(Walk(s0, d, i, j)) <==> Walk(s, d, i, j) == Walk(s0, d, i, j))
    {}
    hide Walk, Sound;
    forall f | f in s0.own && LeafIn(s0.own[f], d, lo, hi) ensures !Unmapped(s0, d, lo, hi) {
      LeafSlot(s0, f, top);
      assert Slot(s0.own[f].i, s0.own[f].j) && P(Walk(s0, d, s0.own[f].i, s0.own[f].j));
    }
  }

  lemma UnmappedMore(s: Space, d: int, lo: int, p: int)
    requires lo <= p && 0 <= p < USER * ENTRIES && Unmapped(s, d, lo, p) && !P(Walk(s, d, PDX(p), PTX(p)))
    ensures Unmapped(s, d, lo, p + 1)
  {
    PnoSplits(p);
    hide Walk;
  }

  // ---- freeing an address space ----

  /** f is d itself, one of its tables or one of its pages. */
  predicate Belongs(own: map<int, Role>, d: int, f: int) {
    f in own && (f == d || (own[f].Table? && own[f].d == d) || (own[f].Leaf? && own[f].d == d))
  }

  /** s is s0 without directory d. */
  ghost predicate Without(s0: Space, s: Space, d: int) {
    && s.data == s0.data
    && (forall f :: f in s.own <==> f in s0.own && !Belongs(s0.own, d, f))
    && (forall f :: f in s.own ==> s.own[f] == s0.own[f])
    && (forall c, i, j :: IsDir(s0, c) && c != d && Slot(i, j) ==> IsDir(s, c) && Walk(s, c, i, j) == Walk(s0, c, i, j))
  }

  lemma AllPagesIn(i: int, j: int)
    requires Slot(i, j)
    ensures InRange(i, j, 0, USER * ENTRIES)
  {}

  lemma TrimmedAll(s0: Space, s: Space, d: int, top: int)
    requires Sound(s0, top) && Sound(s, top) && IsDir(s0, d) && Trimmed(s0, s, d, 0, USER * ENTRIES)
    ensures IsDir(s, d) && Sound(DropDir(s, d), top) && Without(s0, DropDir(s, d), d)
  {
    forall i, j | Slot(i, j) ensures Walk(s, d, i, j) == ZERO { AllPagesIn(i, j); }
    DropDirSound(s, d, top);
    var t := DropDir(s, d);
    hide Walk, PdeAt, Sound;
    forall f ensures f in t.own <==> f in s0.own && !Belongs(s0.own, d, f) {
      if f in s0.own {
        LeafSlot(s0, f, top);
        if s0.own[f].Leaf? { AllPagesIn(s0.own[f].i, s0.own[f].j); }
      }
    }
    assert t.tables == s.tables;
    forall c, i, j | IsDir(s0, c) && c != d && Slot(i, j) ensures IsDir(t, c) && Walk(t, c, i, j) == Walk(s0, c, i, j) {
      SameTablesWalk(s, t, c, i, j);
    }
  }

  lemma SameTablesWalk(s: Space, t: Space, d: int, i: int, j: int)
    requires s.tables == t.tables
    ensures Walk(t, d, i, j) == Walk(s, d, i, j)
  {}

  /** The tables of d with index below i. */
  predicate TableBelow(own: map<int, Role>, d: int, i: int, f: int) {
    f in own && own[f].Table? && own[f].d == d && own[f].i < i
  }

  lemma TableAtIndex(s: Space, d: int, i: int, top: int)
    requires Sound(s, top) && IsDir(s, d) && 0 <= i < USER
    ensures forall f :: f in s.own && s.own[f] == Table(d, i) ==> P(PdeAt(s, d, i)) && PdeAt(s, d, i).addr == f
    ensures P(PdeAt(s, d, i)) ==> PdeAt(s, d, i).addr in s.own && s.own[PdeAt(s, d, i).addr] == Table(d, i)
  {
    assert TableOwned(s, d, i);
    forall f | f in s.own && s.own[f] == Table(d, i) ensures P(PdeAt(s, d, i)) && PdeAt(s, d, i).addr == f {
      assert Backed(s, f);
    }
  }

  // ---- copying an address space ----

  ghost predicate AllMapped(s: Space, d: int, n: int) {
    forall i, j :: Slot(i, j) && InRange(i, j, 0, n) ==> P(Walk(s, d, i, j))
  }

  /** What reading a frame gives. The contents of device memory are not modelled. */
  function Contents(s: Space, f: int, top: int): Data { if f < top && f in s.data then s.data[f] else [] }

  function CopyOf(s: Space, e: Entry, top: int): Want { Want(e.flags, Contents(s, e.addr, top)) }

  /** In s, d2 maps the first n pages as d does in s0: same flags and contents, each on a new
      frame of its own; and it maps nothing else. */
  ghost predicate IsCopy(s0: Space, s: Space, d: int, d2: int, n: int, top: int) {
    forall i, j :: Slot(i, j) ==>
      if InRange(i, j, 0, n)
      then && NewPage(s0, s, Walk(s, d2, i, j), CopyOf(s0, Walk(s0, d, i, j), top), top)
           && s.own[Walk(s, d2, i, j).addr] == Leaf(d2, i, j)
      else !P(Walk(s, d2, i, j))
  }

  lemma KeptSame(s: Space)
    ensures Kept(s, s) && SameWalks(s, s)
  {}

  lemma AddDirFacts(s: Space, d: int, top: int)
    requires Sound(s, top) && d !in s.own && d < top
    ensures Kept(s, AddDir(s, d)) && SameWalks(s, AddDir(s, d)) && forall c :: IsDir(s, c) ==> IsDir(AddDir(s, d), c)
    ensures IsDir(AddDir(s, d), d) && Sound(AddDir(s, d), top)
  {
    AddDirSound(s, d, top);
  }

  lemma NothingMapped(s: Space, d: int)
    ensures AllMapped(s, d, 0)
  {}

  lemma MappedMore(s: Space, d: int, p: int)
    requires 0 <= p < USER * ENTRIES && AllMapped(s, d, p) && P(Walk(s, d, PDX(p), PTX(p)))
    ensures AllMapped(s, d, p + 1)
  {
    PnoSplits(p);
    hide Walk;
  }

  lemma NotAllMapped(s: Space, d: int, p: int, n: int)
    requires 0 <= p < USER * ENTRIES && p < n && !P(Walk(s, d, PDX(p), PTX(p)))
    ensures !AllMapped(s, d, n)
  {
    PnoSplits(p);
    hide Walk;
  }

  /** Halfway through the copy the parent is as it was, and the child has no page p yet. */
  lemma ParentPage(s0: Space, s1: Space, s: Space, d: int, d2: int, p: int, want: (int, int) -> Want, top: int)
    requires Sound(s0, top) && IsDir(s0, d) && d2 !in s0.own && d2 < top && s1 == AddDir(s0, d2)
    requires Filled(s1, s, d2, 0, p, want, top) && 0 <= p < USER * ENTRIES
    ensures var e := Walk(s0, d, PDX(p), PTX(p));
            && Walk(s, d, PDX(p), PTX(p)) == e && !P(Walk(s1, d2, PDX(p), PTX(p)))
            && (P(e) ==> Contents(s, e.addr, top) == Contents(s0, e.addr, top))
  {
    PnoSplits(p);
    AddDirSound(s0, d2, top);
    var i, j := PDX(p), PTX(p);
    var e := Walk(s0, d, i, j);
    assert LeafOwned(s0, d, i, j, top);
    hide Walk, Sound;
    if P(e) && e.addr < top {
      LeafSlot(s0, e.addr, top);
    }
  }

  /** The finished copy. */
  lemma CopyDone(s0: Space, s1: Space, s: Space, d: int, d2: int, n: int, want: (int, int) -> Want, top: int)
    requires Sound(s0, top) && IsDir(s0, d) && d2 !in s0.own && d2 < top && s1 == AddDir(s0, d2) && Sound(s, top)
    requires Filled(s1, s, d2, 0, n, want, top) && forall i, j :: want(i, j) == CopyOf(s0, Walk(s0, d, i, j), top)
    ensures IsCopy(s0, s, d, d2, n, top) && Kept(s0, s) && SameWalks(s0, s) && IsDir(s, d2)
  {
    AddDirSound(s0, d2, top);
    hide Walk;
    forall i, j | Slot(i, j)
      ensures if InRange(i, j, 0, n)
              then && NewPage(s0, s, Walk(s, d2, i, j), CopyOf(s0, Walk(s0, d, i, j), top), top)
                   && s.own[Walk(s, d2, i, j).addr] == Leaf(d2, i, j)
              else !P(Walk(s, d2, i, j))
    {
      if InRange(i, j, 0, n) {
        assert NewPage(s1, s, Walk(s, d2, i, j), want(i, j), top);
        assert LeafOwned(s, d2, i, j, top);
      }
    }
    hide Sound, NewPage, IsCopy;
    KeptThrough(s0, s1, s);
  }

  lemma KeptThrough(s0: Space, s1: Space, s: Space)
    requires Kept(s0, s1) && Kept(s1, s) && s1.data == s0.data
    ensures Kept(s0, s)
  {}

  /** The abandoned copy. */
  lemma CopyUndone(s0: Space, s1: Space, s2: Space, s: Space, d2: int, p: int, want: (int, int) -> Want, top: int)
    requires Sound(s0, top) && d2 !in s0.own && d2 < top && s1 == AddDir(s0, d2)
    requires Filled(s1, s2, d2, 0, p, want, top) && Without(s2, s, d2)
    ensures s.own == s0.own && Kept(s0, s) && SameWalks(s0, s)
  {
    AddDirSound(s0, d2, top);
    hide Walk, NewPage, Sound;
    forall f | f in s0.own ensures f in s.own && s.own[f] == s0.own[f] { RoleDir(s0, f, d2, top); }
    forall f | f in s.own ensures f in s0.own {
      assert f in s2.own && !Belongs(s2.own, d2, f);
      assert f !in s1.own ==> (s2.own[f].Table? && s2.own[f].d == d2) || LeafIn(s2.own[f], d2, 0, p);
    }
    KeptThrough(s0, s1, s2);
    forall c, i, j | IsDir(s0, c) && Slot(i, j) ensures Walk(s, c, i, j) == Walk(s0, c, i, j) {
      assert IsDir(s1, c) && IsDir(s2, c);
    }
  }

  /** No frame belongs to a directory that does not exist. */
  lemma RoleDir(s: Space, f: int, d: int, top: int)
    requires Sound(s, top) && f in s.own && d !in s.own
    ensures !Belongs(s.own, d, f)
  {
    LeafSlot(s, f, top);
  }

  // ---- mapping consecutive frames ----

  /** s is s0 with pages lo up to hi of d mapped to consecutive frames from pa on. */
  ghost predicate Ranged(s0: Space, s: Space, d: int, lo: int, hi: int, pa: int, flags: nat) {
    && Kept(s0, s)
    && (forall c :: IsDir(s0, c) <==> IsDir(s, c))
    && (forall c, i, j :: IsDir(s0, c) && Slot(i, j) ==>
         Walk(s, c, i, j) ==
         if c == d && InRange(i, j, lo, hi) then FrameOf(i, j, lo, pa, flags) else Walk(s0, c, i, j))
    && (forall f :: f in s.own && f !in s0.own ==>
         (s.own[f].Table? && s.own[f].d == d) || LeafIn(s.own[f], d, lo, hi))
  }

  function FrameOf(i: int, j: int, lo: int, pa: int, flags: nat): Entry { Entry(pa + (Pno(i, j) - lo) * 4096, flags) }

  lemma RangeStart(s: Space, d: int, lo: int, pa: int, flags: nat)
    ensures Ranged(s, s, d, lo, lo, pa, flags)
  {}

  lemma RangeTable(s0: Space, s: Space, d: int, lo: int, p: int, pa: int, flags: nat, top: int, i: int, f: int)
    requires IsDir(s0, d) && Ranged(s0, s, d, lo, p, pa, flags)
    requires Sound(s, top) && IsDir(s, d) && 0 <= i < USER && !P(PdeAt(s, d, i)) && f !in s.own && f < top
    ensures Ranged(s0, AddTable(s, d, i, f), d, lo, p, pa, flags)
  {
    hide Sound, Walk, PdeAt;
    AddTableWalk(s, d, i, f, top);
    assert forall c :: IsDir(AddTable(s, d, i, f), c) <==> IsDir(s, c);
  }

  lemma RangeLeaf(s0: Space, s: Space, d: int, lo: int, p: int, pa: int, flags: nat, top: int, e: Entry, data: Data)
    requires IsDir(s0, d) && Ranged(s0, s, d, lo, p, pa, flags) && Sound(s, top) && IsDir(s, d)
    requires lo <= p && 0 <= p < USER * ENTRIES && P(PdeAt(s, d, PDX(p)))
    requires P(e) && e == Entry(pa + (p - lo) * 4096, flags) && (e.addr < top ==> e.addr !in s.own)
    ensures PdeAt(s, d, PDX(p)).addr in s.tables && 0 <= PTX(p) < ENTRIES
    ensures Ranged(s0, AddLeaf(s, d, PDX(p), PTX(p), e, data, top), d, lo, p + 1, pa, flags)
  {
    PnoSplits(p);
    hide Sound, Walk, PdeAt;
    AddLeafWalk(s, d, PDX(p), PTX(p), e, data, top);
    assert Shown(e) == e;
    assert forall c :: IsDir(AddLeaf(s, d, PDX(p), PTX(p), e, data, top), c) <==> IsDir(s, c);
  }
}
