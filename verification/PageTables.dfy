/** The user half of vm.c. Addresses of pages are page numbers below KERNBASE. The kernel half
    of a directory, with the page tables of its own that each directory has there, is not
    part of the state. */
module PageTables {
  import opened Basics
  import opened Frames
  import opened PageSpace

  const KERNBASE := 0x8000_0000

  datatype MapResult = Mapped | NoMemory | Remap
  datatype Outcome = Grown | Refused | NoGrowth | OutOfMemory | Panicked

  datatype CopyResult = Copied | Exhausted | Absent

  predicate UserBit(perm: nat) { perm / 4 % 2 == 1 }

  /** pa | perm | PTE_P, for a page-aligned pa. */
  function Present(perm: nat): nat { if perm % 2 == 1 then perm else perm + 1 }

  /** The number of the first page at or after a. */
  function PageUp(a: nat): nat { (a + PGSIZE - 1) / PGSIZE }

  /** Each frame is owned or free, as before, except for those held in between. */
  ghost predicate Conserved(own0: map<int, Role>, free0: seq<int>, own: map<int, Role>, free: seq<int>,
                            held: set<int>) {
    forall f :: (f in own || f in free || f in held) <==> (f in own0 || f in free0)
  }

  /** What walkpgdir may do on the way to an entry. */
  ghost predicate TableStep(s: Space, free: seq<int>, t: Space, free': seq<int>, d: int, i: int) {
    || (t == s && free' == free)
    || (free != [] && free' == free[1..] && d in s.tables && 0 <= i < ENTRIES
        && !P(PdeAt(s, d, i)) && t == AddTable(s, d, i, free[0]))
  }

  class VirtualMemory {
    const kmem: FrameAllocator
    var tables: map<int, PTable>
    var data: map<int, Data>
    ghost var own: map<int, Role>

    ghost function S(): Space
      reads this
    {
      Space(tables, data, own)
    }

    ghost predicate Valid()
      reads this, kmem
    {
      && kmem.Valid() && kmem.kernelEnd > 0
      && Sound(S(), kmem.phystop)
      && forall f :: f in own ==> f !in kmem.free && kmem.Good(f)
    }

    /** No address space yet, over the pages the allocator has. */
    constructor (kmem: FrameAllocator)
      requires kmem.Valid() && kmem.kernelEnd > 0
      ensures Valid() && own == map[] && this.kmem == kmem
    {
      this.kmem := kmem;
      tables, data, own := map[], map[], map[];
    }

    /** walkpgdir; a pointer to an entry is given by its page table, or NIL. */
    method WalkPgdir(d: int, p: int, alloc: bool) returns (pt: int)
      requires Valid() && IsDir(S(), d) && 0 <= p < USER * ENTRIES
      modifies this, kmem
      ensures Valid() && IsDir(S(), d) && data == old(data)
      ensures TableStep(old(S()), old(kmem.free), S(), kmem.free, d, PDX(p))
      ensures pt != NIL ==> P(PdeAt(S(), d, PDX(p))) && PdeAt(S(), d, PDX(p)).addr == pt && pt in tables
      ensures pt == NIL || !alloc ==> S() == old(S()) && kmem.free == old(kmem.free)
      ensures pt == NIL ==> !P(PdeAt(S(), d, PDX(p))) && (alloc ==> kmem.free == [])
      ensures pt != NIL && pt !in old(own) ==>
                && 0 <= p / 1024 < 512 && tables[d][p / 1024] == Entry(pt, 7)
                && forall j :: 0 <= j < 1024 ==> tables[pt][j] == ZERO
    {
      PnoSplits(p);
      var pde := tables[d][PDX(p)];
      if pde.flags % 2 == 1 {
        pt := pde.addr;
        TableThere(S(), d, PDX(p), kmem.phystop);
        assert kmem.Good(pt);
      } else {
        if !alloc {
          return NIL;
        }
        pt := kmem.KallocPage();
        if pt == NIL {
          return;
        }
        AddTableSound(S(), d, PDX(p), pt, kmem.phystop);
        AddTableWalk(S(), d, PDX(p), pt, kmem.phystop);
        tables := tables[pt := Blank()];
        tables := tables[d := tables[d][PDX(p) := Entry(pt, 7)]];
        own := own[pt := Table(d, PDX(p))];
        assert S() == AddTable(old(S()), d, PDX(p), pt);
        forall f | f in own ensures f !in kmem.free && kmem.Good(f) { if f != pt { assert f in old(own); } }
      }
    }

    /** What a frame holds. */
    function Page(pa: int): Data
      reads this
    {
      if pa in data then data[pa] else []
    }

    /** One turn of the loop of mappages, on a frame that nobody owns or on device memory. */
    method MapPage(d: int, p: int, pa: int, perm: nat) returns (r: MapResult, ghost mid: Space)
      requires Valid() && IsDir(S(), d) && 0 <= p < USER * ENTRIES
      requires pa >= kmem.phystop || (kmem.Good(pa) && pa !in own && pa !in kmem.free && pa in data)
      modifies this, kmem
      ensures Valid() && data == old(data)
      ensures r != Mapped ==> S() == old(S()) && kmem.free == old(kmem.free)
      ensures r == NoMemory ==> kmem.free == []
      ensures r == Remap <==> P(Walk(old(S()), d, PDX(p), PTX(p)))
      ensures r == Mapped ==> TableStep(old(S()), old(kmem.free), mid, kmem.free, d, PDX(p)) && Sound(mid, kmem.phystop)
      ensures r == Mapped ==> P(PdeAt(mid, d, PDX(p))) && PdeAt(mid, d, PDX(p)).addr in mid.tables
      ensures r == Mapped ==> 0 <= PTX(p) < ENTRIES && IsDir(mid, d)
      ensures r == Mapped ==> S() == AddLeaf(mid, d, PDX(p), PTX(p), Entry(pa, Present(perm)), Page(pa), kmem.phystop)
      ensures r == Mapped ==> forall f :: (f in own || f in kmem.free) <==>
                (f in old(own) || f in old(kmem.free) || (f == pa && pa < kmem.phystop))
      ensures r == Mapped && pa < kmem.phystop ==> pa in own
      ensures r == Mapped ==> Walk(S(), d, PDX(p), PTX(p)) == Entry(pa, Present(perm))
      ensures IsDir(S(), d)
    {
      hide Walk, PdeAt, Sound, Spells;
      PnoSplits(p);
      TableStepWalk(S(), d, PDX(p), kmem.phystop);
      assert kmem.free != [] ==> kmem.free[0] in kmem.free;
      var pt := WalkPgdir(d, p, true);
      mid := S();
      if pt == NIL {
        NoTableNoPage(mid, d, PDX(p), PTX(p));
        return NoMemory, mid;
      }
      WalkIs(mid, d, PDX(p), PTX(p));
      assert Walk(mid, d, PDX(p), PTX(p)) == Walk(old(S()), d, PDX(p), PTX(p));
      if tables[pt][PTX(p)].flags % 2 == 1 {
        PresentTable(old(S()), d, PDX(p), PTX(p));
        return Remap, mid;
      }
      var e := Entry(pa, Present(perm));
      AddLeafSound(mid, d, PDX(p), PTX(p), e, Page(pa), kmem.phystop);
      AddLeafWalk(mid, d, PDX(p), PTX(p), e, Page(pa), kmem.phystop);
      tables := tables[pt := tables[pt][PTX(p) := e]];
      if pa < kmem.phystop { own := own[pa := Leaf(d, PDX(p), PTX(p))]; }
      assert pa in data ==> data[pa := Page(pa)] == data;
      assert S() == AddLeaf(mid, d, PDX(p), PTX(p), e, Page(pa), kmem.phystop);
      forall f | f in own ensures f !in kmem.free && kmem.Good(f) { if f != pa { assert f in mid.own; } }
      r := Mapped;
    }

    /** Device memory, or a page with contents that nobody owns and the allocator does not have. */
    ghost predicate Mappable(f: int)
      reads this, kmem
    {
      f >= kmem.phystop || (kmem.Good(f) && f !in own && f !in kmem.free && f in data)
    }

    /** mappages: the whole range is mapped to consecutive frames, or memory runs out with a
        part of it mapped; the panic is a page that is mapped already. */
    method MapPages(d: int, va: nat, size: nat, pa: int, perm: nat) returns (r: MapResult, ghost n: nat)
      requires Valid() && IsDir(S(), d) && size > 0 && va + size <= KERNBASE
      requires forall f :: f in FramesFrom(pa, PagesOf(va, size)) ==> Mappable(f)
      modifies this, kmem
      ensures Valid() && data == old(data)
      ensures r != Remap ==> forall f :: (f in own || f in kmem.free) <==>
                (f in old(own) || f in old(kmem.free) || (f in FramesFrom(pa, n) && f < kmem.phystop))
      ensures var lo := va / PGSIZE;
              && (r != Remap ==> Unmapped(old(S()), d, lo, lo + n))
              && (r != Remap ==> Ranged(old(S()), S(), d, lo, lo + n, pa, Present(perm)))
              && (r == Mapped ==> n == PagesOf(va, size))
              && (r == NoMemory ==> n < PagesOf(va, size) && kmem.free == [])
              && (r == Remap ==> !Unmapped(old(S()), d, lo, lo + PagesOf(va, size)))
      ensures r == Mapped ==> forall p: nat :: p < 0x8_0000 ==>
                PageAt(S(), d, p) == if p * 4096 < va + size && va < p * 4096 + 4096
                                     then Entry(pa + (p - va / 4096) * 4096, if perm % 2 == 1 then perm else perm + 1)
                                     else PageAt(old(S()), d, p)
    {
      hide PageAt;
      hide Walk, PdeAt, Sound, Ranged, Unmapped, AddLeaf, AddTable, FramesFrom, Spells;
      ghost var s0 := S();
      var p := va / PGSIZE;
      var last := (va + size - 1) / PGSIZE;
      var frame := pa;
      ghost var lo, free0, all := p, kmem.free, FramesFrom(pa, PagesOf(va, size));
      n := 0;
      RangeStart(s0, d, lo, pa, Present(perm));
      NothingUnmapped(s0, d, lo);
      FramesNone(pa);
      while true
        invariant lo <= p <= last && frame == pa + n * PGSIZE && n == p - lo
        invariant Valid() && IsDir(S(), d) && data == s0.data
        invariant Ranged(s0, S(), d, lo, p, pa, Present(perm)) && Unmapped(s0, d, lo, p)
        invariant forall f :: (f in own || f in kmem.free) <==>
                    (f in s0.own || f in free0 || (f in FramesFrom(pa, n) && f < kmem.phystop))
        decreases last - p
      {
        ghost var s := S();
        RangedWalk(s0, s, d, lo, p, pa, Present(perm));
        FramesNext(pa, n, PagesOf(va, size));
        assert frame in all && frame !in FramesFrom(pa, n);
        assert kmem.free != [] ==> kmem.free[0] in kmem.free;
        ghost var mid;
        r, mid := MapPage(d, p, frame, perm);
        if r == NoMemory {
          return;
        }
        if r == Remap {
          MappedIn(s0, d, lo, last + 1, p);
          return;
        }
        RangeStep(s0, s, mid, d, lo, p, pa, Present(perm), kmem.phystop, Page(frame));
        UnmappedMore(s0, d, lo, p);
        n := n + 1;
        if p == last {
          RangedBytes(s0, S(), d, va, size, pa, Present(perm));
          break;
        }
        p := p + 1;
        frame := frame + PGSIZE;
      }
    }

    /** The branch of deallocvm for a page that is mapped. */
    method DropPage(d: int, p: int, pt: int)
      requires Valid() && IsDir(S(), d) && 0 <= p < USER * ENTRIES
      requires P(PdeAt(S(), d, PDX(p))) && PdeAt(S(), d, PDX(p)).addr == pt && pt in tables
      requires P(Walk(S(), d, PDX(p), PTX(p)))
      modifies this, kmem
      ensures 0 <= PTX(p) < ENTRIES
      ensures Valid() && S() == DropLeaf(old(S()), d, PDX(p), PTX(p), kmem.phystop)
      ensures forall f :: f in own ==> f in old(own)
      ensures forall f :: f in kmem.free <==> f in old(kmem.free) || (f in old(own) && f !in own)
    {
      hide Walk, PdeAt, Sound, DropLeaf, Spells;
      PnoSplits(p);
      WalkIs(S(), d, PDX(p), PTX(p));
      var pa := tables[pt][PTX(p)].addr;
      DropLeafSound(S(), d, PDX(p), PTX(p), kmem.phystop);
      DropLeafIs(S(), d, PDX(p), PTX(p), kmem.phystop);
      ghost var t := DropLeaf(S(), d, PDX(p), PTX(p), kmem.phystop);
      tables := tables[pt := tables[pt][PTX(p) := ZERO]];
      if pa < kmem.phystop {
        // pa is not 0, so neither this panic nor kfree_page's can happen
        assert kmem.Good(pa) && pa in own;
        own := own - {pa};
        var ok := kmem.KfreePage(pa);
      }
      assert S() == t;
    }

    /** deallocvm: every page from newsz up to oldsz is unmapped, and the frames they own go
        back to the allocator. */
    method DeallocVm(d: int, oldsz: nat, newsz: nat) returns (r: nat)
      requires Valid() && IsDir(S(), d) && oldsz <= KERNBASE
      modifies this, kmem
      ensures Valid() && r == if newsz >= oldsz then oldsz else newsz
      ensures Trimmed(old(S()), S(), d, PageUp(newsz), if newsz >= oldsz then PageUp(newsz) else PageUp(oldsz))
      ensures Conserved(old(own), old(kmem.free), own, kmem.free, {})
      ensures forall f :: f in kmem.free <==> f in old(kmem.free) || (f in old(own) && f !in own)
      ensures forall p: nat :: p < 0x8_0000 ==>
                PageAt(S(), d, p) == if newsz <= p * 4096 < oldsz then ZERO else PageAt(old(S()), d, p)
      ensures forall p: nat :: p < 0x8_0000 && newsz <= p * 4096 < oldsz && P(PageAt(old(S()), d, p)) ==>
                PageAt(old(S()), d, p).addr in kmem.free || PageAt(old(S()), d, p).addr >= kmem.phystop
    {
      hide Walk, PdeAt, PageAt, Sound, Trimmed, DropLeaf, FrameAllocator.Valid;
      ghost var s0 := S();
      var p := PageUp(newsz);
      TrimStart(s0, d, p);
      if newsz >= oldsz {
        TrimmedBytes(s0, S(), d, newsz, newsz, kmem.phystop);
        return oldsz;
      }
      ghost var lo, hi := p, PageUp(oldsz);
      TrimOwn(s0, S(), d, lo, p);
      while p * PGSIZE < oldsz
        invariant lo <= p <= USER * ENTRIES
        invariant Valid() && IsDir(S(), d) && Trimmed(s0, S(), d, lo, if p < hi then p else hi)
        invariant forall f :: f in own ==> f in s0.own
        invariant forall f :: f in kmem.free <==> f in old(kmem.free) || (f in s0.own && f !in own)
        decreases USER * ENTRIES - p
      {
        var pt := WalkPgdir(d, p, false);
        PnoSplits(p);
        if pt == NIL {
          // PGADDR(PDX(a) + 1, 0, 0)
          ghost var next := (PDX(p) + 1) * ENTRIES;
          TrimSkipTable(s0, S(), d, lo, p, if next < hi then next else hi, kmem.phystop);
          p := (PDX(p) + 1) * ENTRIES;
          continue;
        }
        WalkIs(S(), d, PDX(p), PTX(p));
        var pte := tables[pt][PTX(p)];
        if pte.flags % 2 == 1 {
          ghost var s := S();
          TrimStep(s0, s, d, lo, p, kmem.phystop);
          DropPage(d, p, pt);
          TrimOwn(s0, S(), d, lo, p + 1);
        } else {
          TrimSkip(s0, S(), d, lo, p, kmem.phystop);
        }
        p := p + 1;
      }
      TrimmedBytes(s0, S(), d, newsz, oldsz, kmem.phystop);
      r := newsz;
    }

    /** Writing a fresh frame and mapping it, as allocvm and copyuvm do. */
    method PlacePage(d: int, p: int, mem: int, page: Data, perm: nat, ghost s0: Space, ghost lo: int,
                     ghost want: (int, int) -> Want)
      returns (m: MapResult)
      requires Valid() && IsDir(s0, d) && lo <= p && 0 <= p < USER * ENTRIES
      requires kmem.Good(mem) && mem !in own && mem !in kmem.free
      requires Filled(s0, S(), d, lo, p, want, kmem.phystop) && want(PDX(p), PTX(p)) == Want(Present(perm), page)
      modifies this, kmem
      ensures Valid() && IsDir(S(), d)
      ensures m == Remap <==> P(Walk(s0, d, PDX(p), PTX(p)))
      ensures m == Mapped ==> Filled(s0, S(), d, lo, p + 1, want, kmem.phystop)
      ensures m == Mapped ==> mem in own
      ensures m == Mapped ==> Conserved(old(own), [mem] + old(kmem.free), own, kmem.free, {})
      ensures m != Mapped ==> own == old(own) && kmem.free == old(kmem.free)
      ensures m != Mapped ==> Filled(s0, S(), d, lo, p, want, kmem.phystop)
      ensures m == NoMemory ==> kmem.free == []
      ensures |kmem.free| >= |old(kmem.free)| - 1
    {
      hide Walk, PdeAt, Sound, Filled, AddLeaf, AddTable, Spells;
      WithDataSound(S(), mem, page, kmem.phystop);
      FillData(s0, S(), d, lo, p, want, kmem.phystop, mem, page);
      data := data[mem := page];
      assert S() == WithData(old(S()), mem, page);
      ghost var s := S();
      FilledWalk(s0, s, d, lo, p, want, kmem.phystop);
      FilledDir(s0, s, d, lo, p, want, kmem.phystop);
      assert kmem.free != [] ==> kmem.free[0] in kmem.free;
      ghost var mid;
      m, mid := MapPage(d, p, mem, perm);
      if m == Mapped {
        FillStep(s0, s, mid, d, lo, p, want, kmem.phystop, Entry(mem, Present(perm)), page);
        FilledDir(s0, S(), d, lo, p + 1, want, kmem.phystop);
      }
    }

    /** inituvm: a page with the given contents at address 0. */
    method InitUvm(d: int, page: Data) returns (m: MapResult)
      requires Valid() && IsDir(S(), d) && kmem.free != []
      modifies this, kmem
      ensures Valid() && IsDir(S(), d)
      ensures m == Remap <==> P(Walk(old(S()), d, 0, 0))
      ensures m == NoMemory ==> |old(kmem.free)| == 1
      ensures m == Mapped ==> Filled(old(S()), S(), d, 0, 1, (i, j) => Want(7, page), kmem.phystop)
      ensures |kmem.free| >= |old(kmem.free)| - 2
    {
      hide Walk, Sound, Filled, Spells;
      ghost var s0, want := S(), (i, j) => Want(7, page);
      FillStart(s0, d, 0, want, kmem.phystop);
      var mem := kmem.KallocPage();
      m := PlacePage(d, 0, mem, page, 6, s0, 0, want);
    }

    /** What allocvm does when memory runs out at page p. */
    method GiveBack(d: int, oldsz: nat, newsz: nat, ghost s0: Space, ghost p: int, ghost want: (int, int) -> Want)
      requires Valid() && IsDir(S(), d) && oldsz <= newsz <= KERNBASE && Sound(s0, kmem.phystop) && IsDir(s0, d)
      requires PageUp(oldsz) <= p <= PageUp(newsz) && Filled(s0, S(), d, PageUp(oldsz), p, want, kmem.phystop)
      modifies this, kmem
      ensures Valid() && Undone(s0, S(), d, PageUp(oldsz), PageUp(newsz))
      ensures SameWalks(s0, S()) <==> Unmapped(s0, d, PageUp(oldsz), PageUp(newsz))
      ensures Conserved(old(own), old(kmem.free), own, kmem.free, {})
      ensures forall f :: f in own ==> f in old(own)
      ensures forall f :: f in kmem.free ==> f in old(own) || f in old(kmem.free)
    {
      hide Walk, PdeAt, Sound, Filled, Trimmed, Undone, Unmapped, SameWalks, Spells;
      ghost var s := S();
      var r := DeallocVm(d, newsz, oldsz);
      FilledTrimmed(s0, s, S(), d, PageUp(oldsz), p, PageUp(newsz), want, kmem.phystop);
      UndoneRestores(s0, S(), d, PageUp(oldsz), PageUp(newsz), kmem.phystop);
      TrimOwn(s, S(), d, PageUp(oldsz), PageUp(newsz));
    }

    /** The same with a page in hand. */
    method GiveBackAll(d: int, oldsz: nat, newsz: nat, mem: int, ghost s0: Space, ghost p: int,
                       ghost want: (int, int) -> Want)
      requires Valid() && IsDir(S(), d) && oldsz <= newsz <= KERNBASE && Sound(s0, kmem.phystop) && IsDir(s0, d)
      requires PageUp(oldsz) <= p <= PageUp(newsz) && Filled(s0, S(), d, PageUp(oldsz), p, want, kmem.phystop)
      requires kmem.Good(mem) && mem !in own && mem !in kmem.free
      modifies this, kmem
      ensures Valid() && Undone(s0, S(), d, PageUp(oldsz), PageUp(newsz))
      ensures SameWalks(s0, S()) <==> Unmapped(s0, d, PageUp(oldsz), PageUp(newsz))
      ensures Conserved(old(own), [mem] + old(kmem.free), own, kmem.free, {})
    {
      hide Sound, Filled, Undone, Unmapped, SameWalks, Spells;
      GiveBack(d, oldsz, newsz, s0, p, want);
      var ok := kmem.KfreePage(mem);
    }

    /** The loop of allocvm. */
    method GrowRange(d: int, oldsz: nat, newsz: nat, perm: nat, ghost want: (int, int) -> Want) returns (o: Outcome)
      requires Valid() && IsDir(S(), d) && oldsz <= newsz < KERNBASE
      requires forall i, j :: want(i, j) == Want(Present(perm), ZeroPage())
      modifies this, kmem
      ensures Valid() && (o == Grown || o == OutOfMemory || o == Panicked)
      ensures o == Grown ==> Unmapped(old(S()), d, PageUp(oldsz), PageUp(newsz))
      ensures o == Grown ==> Filled(old(S()), S(), d, PageUp(oldsz), PageUp(newsz), want, kmem.phystop)
      ensures o == OutOfMemory ==> Undone(old(S()), S(), d, PageUp(oldsz), PageUp(newsz))
      ensures o == OutOfMemory ==> (SameWalks(old(S()), S()) <==> Unmapped(old(S()), d, PageUp(oldsz), PageUp(newsz)))
      ensures o != Panicked ==> Conserved(old(own), old(kmem.free), own, kmem.free, {})
      ensures o == Panicked ==> !Unmapped(old(S()), d, PageUp(oldsz), PageUp(newsz))
      ensures old(kmem.free) == [] && PageUp(oldsz) < PageUp(newsz) ==> o == OutOfMemory
    {
      hide Walk, PdeAt, Sound, Filled, Trimmed, Undone, Unmapped, AddLeaf, AddTable, SameWalks, Spells, Conserved;
      ConservedSame(own, kmem.free);
      ghost var s0 := S();
      var p := PageUp(oldsz);
      ghost var lo, hi := p, PageUp(newsz);
      FillStart(s0, d, lo, want, kmem.phystop);
      NothingUnmapped(s0, d, lo);
      while p * PGSIZE < newsz
        invariant lo <= p <= hi || p == lo
        invariant Valid() && IsDir(S(), d) && Filled(s0, S(), d, lo, p, want, kmem.phystop) && Unmapped(s0, d, lo, p)
        invariant Conserved(s0.own, old(kmem.free), own, kmem.free, {})
        invariant old(kmem.free) == [] ==> p == lo && kmem.free == []
        decreases hi - p
      {
        ghost var own1, free1 := own, kmem.free;
        var mem := kmem.KallocPage();
        if mem == NIL {
          GiveBack(d, oldsz, newsz, s0, p, want);
          ConservedTrans(s0.own, old(kmem.free), own1, free1, own, kmem.free);
          return OutOfMemory;
        }
        OneTaken(free1, kmem.free, mem);
        var m := PlacePage(d, p, mem, ZeroPage(), perm, s0, lo, want);
        if m == Remap {
          MappedIn(s0, d, lo, hi, p);
          return Panicked;
        }
        if m == NoMemory {
          GiveBackAll(d, oldsz, newsz, mem, s0, p, want);
          ConservedTrans(s0.own, old(kmem.free), own1, free1, own, kmem.free);
          return OutOfMemory;
        }
        ConservedTrans(s0.own, old(kmem.free), own1, free1, own, kmem.free);
        UnmappedMore(s0, d, lo, p);
        p := p + 1;
      }
      o := Grown;
    }

    /** allocvm: r is what it returns, o why. When memory runs out, the pages of the range are
        unmapped again; the panic is mappages finding a page there. */
    method AllocVm(d: int, oldsz: nat, newsz: nat, perm: nat) returns (r: nat, o: Outcome)
      requires Valid() && IsDir(S(), d) && (newsz < KERNBASE || UserBit(perm))
      modifies this, kmem
      ensures Valid()
      ensures o == Refused <==> newsz >= KERNBASE
      ensures o == NoGrowth <==> newsz < KERNBASE && newsz < oldsz
      ensures o == Refused || o == NoGrowth ==> S() == old(S()) && kmem.free == old(kmem.free)
      ensures r == match o case Grown => newsz case NoGrowth => oldsz case _ => 0
      ensures o == Grown ==> forall p: nat :: p < 0x8_0000 ==>
                if oldsz <= p * 4096 < newsz
                then && !P(PageAt(old(S()), d, p)) && PageAt(S(), d, p).addr in old(kmem.free)
                     && PageAt(S(), d, p).flags == (if perm % 2 == 1 then perm else perm + 1)
                     && PageAt(S(), d, p).addr in data && data[PageAt(S(), d, p).addr] == ZeroPage()
                else PageAt(S(), d, p) == PageAt(old(S()), d, p)
      ensures o == Grown ==> Kept(old(S()), S())
      ensures o == OutOfMemory ==> forall p: nat :: p < 0x8_0000 ==>
                PageAt(S(), d, p) == if oldsz <= p * 4096 < newsz then ZERO else PageAt(old(S()), d, p)
      ensures o == OutOfMemory ==> Undone(old(S()), S(), d, PageUp(oldsz), PageUp(newsz))
      ensures o == OutOfMemory ==> (SameWalks(old(S()), S()) <==> Unmapped(old(S()), d, PageUp(oldsz), PageUp(newsz)))
      ensures o != Panicked ==> Conserved(old(own), old(kmem.free), own, kmem.free, {})
      ensures o == Panicked ==> exists p: nat :: p < 0x8_0000 && oldsz <= p * 4096 < newsz && P(PageAt(old(S()), d, p))
      ensures old(kmem.free) == [] && oldsz <= newsz < KERNBASE && (oldsz + 4095) / 4096 * 4096 < newsz ==>
                o == OutOfMemory
    {
      hide Walk, PageAt, Sound, Filled, Undone, Unmapped, SameWalks, Spells, Conserved, Kept;
      ConservedSame(own, kmem.free);
      if newsz >= KERNBASE && perm / 4 % 2 == 1 {
        return 0, Refused;
      }
      if newsz < oldsz {
        return oldsz, NoGrowth;
      }
      ghost var s0, want := S(), (i, j) => Want(Present(perm), ZeroPage());
      o := GrowRange(d, oldsz, newsz, perm, want);
      r := 0;
      if o == OutOfMemory {
        UndoneBytes(s0, S(), d, oldsz, newsz);
      } else if o == Panicked {
        MappedByte(s0, d, oldsz, newsz);
      } else {
        FilledKept(s0, S(), d, PageUp(oldsz), PageUp(newsz), want, kmem.phystop);
        GrownBytes(s0, S(), d, oldsz, newsz, perm, old(kmem.free), kmem.free, want, kmem.phystop);
        r := newsz;
      }
    }

    /** freevm: the directory, its tables and the frames it owns go back to the allocator, and
        nothing else does. (Directory entries of the kernel half are skipped.) */
    method FreeVm(d: int)
      requires Valid() && IsDir(S(), d)
      modifies this, kmem
      ensures Valid() && Without(old(S()), S(), d)
      ensures forall f :: f in kmem.free <==> f in old(kmem.free) || Belongs(old(own), d, f)
    {
      hide Walk, Sound, Trimmed, Without, Spells;
      ghost var s0 := S();
      var r := DeallocVm(d, KERNBASE, 0);
      ghost var s := S();
      TrimmedAll(s0, s, d, kmem.phystop);
      WithoutOwn(s0, DropDir(s, d), d);
      TrimOwn(s0, s, d, 0, USER * ENTRIES);
      own := own - Trunk(s, d);
      assert S() == DropDir(s, d);
      ghost var free1 := kmem.free;
      assert forall f :: f in s.own ==> kmem.Good(f) && f !in free1;
      forall f ensures !TableBelow(s.own, d, 0, f) { if f in s.own { LeafSlot(s, f, kmem.phystop); } }
      var i := 0;
      while i < USER
        invariant 0 <= i <= USER && kmem.Valid() && tables == s.tables && S() == DropDir(s, d)
        invariant forall f :: f in kmem.free <==> f in free1 || TableBelow(s.own, d, i, f)
      {
        TableAtIndex(s, d, i, kmem.phystop);
        if tables[d][i].flags % 2 == 1 {
          var pa := tables[d][i].addr;
          assert kmem.Good(pa);
          if pa < kmem.phystop {
            var ok := kmem.KfreePage(pa);
          }
        }
        i := i + 1;
      }
      forall f ensures TableBelow(s.own, d, USER, f) <==> f in s.own && s.own[f].Table? && s.own[f].d == d {
        if f in s.own { LeafSlot(s, f, kmem.phystop); }
      }
      assert d !in kmem.free && kmem.Good(d);
      var ok := kmem.KfreePage(d);
      forall f ensures f in kmem.free <==> f in old(kmem.free) || Belongs(s0.own, d, f) { }
    }

    /** setup_kernel_page_directory, as far as the user half goes: a directory without pages. */
    method SetupPageDirectory() returns (d: int)
      requires Valid()
      modifies this, kmem
      ensures Valid()
      ensures d == NIL ==> S() == old(S()) && kmem.free == old(kmem.free) == []
      ensures d != NIL ==> old(kmem.free) != [] && d == old(kmem.free)[0] && kmem.free == old(kmem.free)[1..]
      ensures d != NIL ==> d !in old(own) && S() == AddDir(old(S()), d) && IsDir(S(), d)
      ensures Conserved(old(own), old(kmem.free), own, kmem.free, {})
    {
      hide Sound, Spells;
      assert kmem.free != [] ==> kmem.free[0] in kmem.free;
      d := kmem.KallocPage();
      if d != NIL {
        AddDirSound(S(), d, kmem.phystop);
        tables := tables[d := Blank()];
        own := own[d := Dir];
        assert S() == AddDir(old(S()), d);
        assert old(kmem.free) == [d] + kmem.free;
        forall f | f in own ensures f !in kmem.free && kmem.Good(f) { if f != d { assert f in old(own); } }
      }
    }

    /** The loop of copyuvm: the next page of the parent goes to the child. */
    method CopyPage(d: int, d2: int, p: int, ghost s0: Space, ghost s1: Space, ghost want: (int, int) -> Want,
                    ghost free0: seq<int>)
      returns (c: CopyResult)
      requires Valid() && Sound(s0, kmem.phystop) && IsDir(s0, d)
      requires d2 !in s0.own && d2 < kmem.phystop && s1 == AddDir(s0, d2)
      requires Filled(s1, S(), d2, 0, p, want, kmem.phystop) && 0 <= p < USER * ENTRIES
      requires want(PDX(p), PTX(p)) == CopyOf(s0, Walk(s0, d, PDX(p), PTX(p)), kmem.phystop)
      requires Conserved(s0.own, free0, own, kmem.free, {})
      modifies this, kmem
      ensures Valid() && IsDir(S(), d2)
      ensures c == Absent <==> !P(Walk(s0, d, PDX(p), PTX(p)))
      ensures Filled(s1, S(), d2, 0, if c == Copied then p + 1 else p, want, kmem.phystop)
      ensures Conserved(s0.own, free0, own, kmem.free, {})
    {
      hide Walk, PdeAt, Sound, Filled, AddDir, NewPage, Spells;
      PnoSplits(p);
      AddDirFacts(s0, d2, kmem.phystop);
      FilledDir(s1, S(), d2, 0, p, want, kmem.phystop);
      ParentPage(s0, s1, S(), d, d2, p, want, kmem.phystop);
      var pt := WalkPgdir(d, p, false);
      if pt == NIL {
        NoTableNoPage(S(), d, PDX(p), PTX(p));
        return Absent;
      }
      WalkIs(S(), d, PDX(p), PTX(p));
      var pte := tables[pt][PTX(p)];
      if pte.flags % 2 != 1 {
        return Absent;
      }
      ghost var free := kmem.free;
      assert free != [] ==> free == [free[0]] + free[1..];
      var mem := kmem.KallocPage();
      if mem == NIL {
        return Exhausted;
      }
      var pa := pte.addr;
      var page := if pa < kmem.phystop && pa in data then data[pa] else [];
      var m := PlacePage(d2, p, mem, page, pte.flags, s1, 0, want);
      if m == NoMemory {
        var ok := kmem.KfreePage(mem);
        return Exhausted;
      }
      c := Copied;
    }

    /** The `bad` exit of copyuvm. */
    method GiveUp(d2: int, ghost s0: Space, ghost s1: Space, ghost p: int, ghost want: (int, int) -> Want,
                  ghost free0: seq<int>)
      requires Valid() && IsDir(S(), d2) && Sound(s0, kmem.phystop)
      requires d2 !in s0.own && d2 < kmem.phystop && s1 == AddDir(s0, d2)
      requires Filled(s1, S(), d2, 0, p, want, kmem.phystop)
      requires Conserved(s0.own, free0, own, kmem.free, {}) && forall f :: f in s0.own ==> f !in free0
      modifies this, kmem
      ensures Valid() && own == s0.own && Kept(s0, S()) && SameWalks(s0, S())
      ensures forall f :: f in kmem.free <==> f in free0
      ensures Conserved(s0.own, free0, own, kmem.free, {})
    {
      hide Walk, Sound, Filled, Kept, SameWalks, Spells;
      ghost var s2, free2 := S(), kmem.free;
      FreeVm(d2);
      CopyUndone(s0, s1, s2, S(), d2, p, want, kmem.phystop);
      forall f ensures f in kmem.free <==> f in free0 {
        assert f in s2.own ==> f !in free2;
        assert Belongs(s2.own, d2, f) ==> f in s2.own && f !in own;
      }
    }

    /** copyuvm: NIL when memory runs out, and then everything is as before. The panic is a
        page of the parent below sz that is not there. */
    method CopyUvm(d: int, sz: nat) returns (d2: int, panicked: bool)
      requires Valid() && IsDir(S(), d) && sz <= KERNBASE
      modifies this, kmem
      ensures Valid()
      ensures panicked ==> !AllMapped(old(S()), d, PageUp(sz))
      ensures !panicked && d2 != NIL ==> AllMapped(old(S()), d, PageUp(sz)) && d2 in old(kmem.free) && IsDir(S(), d2)
      ensures !panicked && d2 != NIL ==> IsCopy(old(S()), S(), d, d2, PageUp(sz), kmem.phystop)
      ensures !panicked && d2 == NIL ==> own == old(own) && forall f :: f in kmem.free <==> f in old(kmem.free)
      ensures !panicked ==> Kept(old(S()), S()) && SameWalks(old(S()), S())
      ensures !panicked ==> Conserved(old(own), old(kmem.free), own, kmem.free, {})
      ensures panicked ==> exists p: nat :: p < 0x8_0000 && p * 4096 < sz && !P(PageAt(old(S()), d, p))
      ensures !panicked && d2 != NIL ==> forall p: nat :: p < 0x8_0000 ==>
                if p * 4096 < sz
                then var e0, e := PageAt(old(S()), d, p), PageAt(S(), d2, p);
                     && P(e0) && P(e) && e.flags == e0.flags && e.addr in old(kmem.free) && e.addr in data
                     && (e0.addr < kmem.phystop ==> e0.addr in old(data) && data[e.addr] == old(data)[e0.addr])
                else !P(PageAt(S(), d2, p))
    {
      hide PageAt, IsCopy, AllMapped;
      hide Walk, PdeAt, Sound, Filled, Trimmed, Without, AddDir, SameWalks, Kept, Spells;
      ghost var s0, free0 := S(), kmem.free;
      KeptSame(s0);
      d2 := SetupPageDirectory();
      if d2 == NIL {
        return NIL, false;
      }
      ghost var s1 := S();
      AddDirFacts(s0, d2, kmem.phystop);
      ghost var top := kmem.phystop;
      ghost var want := (i, j) => CopyOf(s0, Walk(s0, d, i, j), top);
      var p := 0;
      FillStart(s1, d2, 0, want, kmem.phystop);
      NothingMapped(s0, d);
      while p * PGSIZE < sz
        invariant 0 <= p <= PageUp(sz)
        invariant Valid() && IsDir(S(), d2) && Filled(s1, S(), d2, 0, p, want, kmem.phystop) && AllMapped(s0, d, p)
        invariant Conserved(old(own), old(kmem.free), own, kmem.free, {})
        decreases PageUp(sz) - p
      {
        var c := CopyPage(d, d2, p, s0, s1, want, free0);
        if c == Absent {
          NotAllMapped(s0, d, p, PageUp(sz));
          PageIs(s0, d, p);
          return NIL, true;
        }
        if c == Exhausted {
          GiveUp(d2, s0, s1, p, want, free0);
          return NIL, false;
        }
        MappedMore(s0, d, p);
        p := p + 1;
      }
      CopyDone(s0, s1, S(), d, d2, p, want, kmem.phystop);
      CopiedBytes(s0, S(), d, d2, sz, kmem.phystop);
      panicked := false;
    }
  }

  // ---- ranges of bytes ----

  /** The first page at or after a is the first that begins at a or later. */
  lemma RoundsUp(a: nat, p: nat)
    ensures PageUp(a) <= p <==> a <= p * 4096
  {}

  lemma PageIs(s: Space, d: int, p: nat)
    requires p < 0x8_0000
    ensures Slot(PDX(p), PTX(p)) && Pno(PDX(p), PTX(p)) == p && PageAt(s, d, p) == Walk(s, d, PDX(p), PTX(p))
  {
    PnoSplits(p);
  }

  lemma TrimmedBytes(s0: Space, s: Space, d: int, a: nat, b: nat, top: int)
    requires IsDir(s0, d) && Sound(s0, top) && Trimmed(s0, s, d, PageUp(a), PageUp(b))
    ensures forall p: nat :: p < 0x8_0000 ==>
              PageAt(s, d, p) == if a <= p * 4096 < b then ZERO else PageAt(s0, d, p)
    ensures forall p: nat :: p < 0x8_0000 && a <= p * 4096 < b && P(PageAt(s0, d, p)) && PageAt(s0, d, p).addr < top ==>
              PageAt(s0, d, p).addr in s0.own && PageAt(s0, d, p).addr !in s.own
  {
    hide Walk, PageAt, PageUp, Sound;
    forall p: nat | p < 0x8_0000
      ensures PageAt(s, d, p) == if a <= p * 4096 < b then ZERO else PageAt(s0, d, p)
      ensures a <= p * 4096 < b && P(PageAt(s0, d, p)) && PageAt(s0, d, p).addr < top ==>
                PageAt(s0, d, p).addr in s0.own && PageAt(s0, d, p).addr !in s.own
    {
      RoundsUp(a, p);
      RoundsUp(b, p);
      PageIs(s, d, p);
      PageIs(s0, d, p);
      OwnLeaf(s0, d, PDX(p), PTX(p), top);
    }
  }

  lemma RangedBytes(s0: Space, s: Space, d: int, va: nat, size: nat, pa: int, flags: nat)
    requires IsDir(s0, d) && size > 0
    requires Ranged(s0, s, d, va / 4096, va / 4096 + PagesOf(va, size), pa, flags)
    ensures forall p: nat :: p < 0x8_0000 ==>
              PageAt(s, d, p) == if p * 4096 < va + size && va < p * 4096 + 4096
                                 then Entry(pa + (p - va / 4096) * 4096, flags)
                                 else PageAt(s0, d, p)
  {
    hide Walk, PageAt;
    forall p: nat | p < 0x8_0000
      ensures PageAt(s, d, p) == if p * 4096 < va + size && va < p * 4096 + 4096
                                 then Entry(pa + (p - va / 4096) * 4096, flags)
                                 else PageAt(s0, d, p)
    {
      PageIs(s, d, p);
      PageIs(s0, d, p);
    }
  }

  lemma MappedByte(s: Space, d: int, a: nat, b: nat)
    requires b <= KERNBASE && !Unmapped(s, d, PageUp(a), PageUp(b))
    ensures exists p: nat :: p < 0x8_0000 && a <= p * 4096 < b && P(PageAt(s, d, p))
  {
    hide Walk, PageAt, PageUp;
    var i, j :| Slot(i, j) && InRange(i, j, PageUp(a), PageUp(b)) && P(Walk(s, d, i, j));
    var p := Pno(i, j);
    RoundsUp(a, p);
    RoundsUp(b, p);
    PageIs(s, d, p);
  }

  lemma FilledKept(s0: Space, s: Space, d: int, lo: int, hi: int, want: (int, int) -> Want, top: int)
    requires Filled(s0, s, d, lo, hi, want, top)
    ensures Kept(s0, s)
  {}

  lemma UndoneBytes(s0: Space, s: Space, d: int, a: nat, b: nat)
    requires IsDir(s0, d) && Undone(s0, s, d, PageUp(a), PageUp(b))
    ensures forall p: nat :: p < 0x8_0000 ==>
              PageAt(s, d, p) == if a <= p * 4096 < b then ZERO else PageAt(s0, d, p)
  {
    hide Walk, PageAt, PageUp;
    forall p: nat | p < 0x8_0000
      ensures PageAt(s, d, p) == if a <= p * 4096 < b then ZERO else PageAt(s0, d, p)
    {
      RoundsUp(a, p);
      RoundsUp(b, p);
      PageIs(s, d, p);
      PageIs(s0, d, p);
    }
  }

  lemma GrownBytes(s0: Space, s: Space, d: int, a: nat, b: nat, perm: nat, free0: seq<int>, free: seq<int>,
                   want: (int, int) -> Want, top: int)
    requires IsDir(s0, d) && Filled(s0, s, d, PageUp(a), PageUp(b), want, top) && Unmapped(s0, d, PageUp(a), PageUp(b))
    requires forall i, j :: want(i, j) == Want(Present(perm), ZeroPage())
    requires Conserved(s0.own, free0, s.own, free, {})
    ensures forall p: nat :: p < 0x8_0000 ==>
              if a <= p * 4096 < b
              then && !P(PageAt(s0, d, p)) && PageAt(s, d, p).addr in free0
                   && PageAt(s, d, p).flags == (if perm % 2 == 1 then perm else perm + 1)
                   && PageAt(s, d, p).addr in s.data && s.data[PageAt(s, d, p).addr] == ZeroPage()
              else PageAt(s, d, p) == PageAt(s0, d, p)
  {
    hide Walk, PageAt, PageUp;
    forall p: nat | p < 0x8_0000
      ensures if a <= p * 4096 < b
              then && !P(PageAt(s0, d, p)) && PageAt(s, d, p).addr in free0
                   && PageAt(s, d, p).flags == (if perm % 2 == 1 then perm else perm + 1)
                   && PageAt(s, d, p).addr in s.data && s.data[PageAt(s, d, p).addr] == ZeroPage()
              else PageAt(s, d, p) == PageAt(s0, d, p)
    {
      RoundsUp(a, p);
      RoundsUp(b, p);
      PageIs(s, d, p);
      PageIs(s0, d, p);
      if a <= p * 4096 < b {
        assert NewPage(s0, s, Walk(s, d, PDX(p), PTX(p)), want(PDX(p), PTX(p)), top);
      }
    }
  }

  lemma CopiedBytes(s0: Space, s: Space, d: int, d2: int, sz: nat, top: int)
    requires IsDir(s0, d) && Sound(s0, top) && AllMapped(s0, d, PageUp(sz)) && IsCopy(s0, s, d, d2, PageUp(sz), top)
    ensures forall p: nat :: p < 0x8_0000 ==>
              if p * 4096 < sz
              then var e0, e := PageAt(s0, d, p), PageAt(s, d2, p);
                   && P(e0) && P(e) && e.flags == e0.flags && e.addr !in s0.own && e.addr in s.own && e.addr in s.data
                   && (e0.addr < top ==> e0.addr in s0.data && s.data[e.addr] == s0.data[e0.addr])
              else !P(PageAt(s, d2, p))
  {
    hide Walk, PageAt, PageUp, Sound;
    forall p: nat | p < 0x8_0000
      ensures if p * 4096 < sz
              then var e0, e := PageAt(s0, d, p), PageAt(s, d2, p);
                   && P(e0) && P(e) && e.flags == e0.flags && e.addr !in s0.own && e.addr in s.own && e.addr in s.data
                   && (e0.addr < top ==> e0.addr in s0.data && s.data[e.addr] == s0.data[e0.addr])
              else !P(PageAt(s, d2, p))
    {
      RoundsUp(sz, p);
      PageIs(s, d2, p);
      PageIs(s0, d, p);
      OwnLeaf(s0, d, PDX(p), PTX(p), top);
      if p * 4096 < sz && PageAt(s0, d, p).addr < top {
        LeafSlot(s0, PageAt(s0, d, p).addr, top);
      }
    }
  }

  lemma OwnLeaf(s: Space, d: int, i: int, j: int, top: int)
    requires Sound(s, top) && IsDir(s, d) && Slot(i, j)
    ensures LeafOwned(s, d, i, j, top)
  {}

  /** Whether byte address va of d is mapped. */
  method IsMapped(vm: VirtualMemory, d: int, va: nat) returns (mapped: bool)
    requires vm.Valid() && IsDir(vm.S(), d) && va < KERNBASE
    modifies vm, vm.kmem
    ensures vm.Valid() && vm.S() == old(vm.S()) && vm.kmem.free == old(vm.kmem.free)
    ensures mapped <==> P(Walk(vm.S(), d, PDX(va / PGSIZE), PTX(va / PGSIZE)))
  {
    hide Sound, Walk;
    var p := va / PGSIZE;
    PnoSplits(p);
    var pt := vm.WalkPgdir(d, p, false);
    if pt == NIL {
      NoTableNoPage(vm.S(), d, PDX(p), PTX(p));
      return false;
    }
    WalkIs(vm.S(), d, PDX(p), PTX(p));
    mapped := vm.tables[pt][PTX(p)].flags % 2 == 1;
  }

  const FRAMEBUFFER := 0x5000_0000    // FB_MMAP_BASE

  /** A run that loses a mapping: a process of one page maps the framebuffer, other processes
      take the memory that is left, and the process grows past the framebuffer. */
  method GrowOverFramebuffer() returns (o: Outcome, before: bool, after: bool)
    ensures o == OutOfMemory && before && !after
  {
    hide Sound, Walk, Undone, Unmapped, SameWalks, VirtualMemory.Valid;
    var vm, d := OnePageProcess();
    MapFramebuffer(vm, d);
    TakeRest(vm);
    before := IsMapped(vm, d, FRAMEBUFFER);
    ghost var s := vm.S();
    var r;
    r, o := vm.AllocVm(d, PGSIZE, FRAMEBUFFER + PGSIZE, 6);
    UndoneAt(s, vm.S(), d, 1, FRAMEBUFFER / PGSIZE + 1, FRAMEBUFFER / PGSIZE);
    after := IsMapped(vm, d, FRAMEBUFFER);
  }

  method MapFramebuffer(vm: VirtualMemory, d: int)
    requires vm.Valid() && IsDir(vm.S(), d) && vm.kmem.free != [] && vm.kmem.phystop <= 0xE000_0000
    requires !P(Walk(vm.S(), d, PDX(FRAMEBUFFER / PGSIZE), PTX(FRAMEBUFFER / PGSIZE)))
    modifies vm, vm.kmem
    ensures vm.Valid() && IsDir(vm.S(), d)
    ensures P(Walk(vm.S(), d, PDX(FRAMEBUFFER / PGSIZE), PTX(FRAMEBUFFER / PGSIZE)))
  {
    hide Sound, Walk, PdeAt, AddLeaf, AddTable, Spells;
    var m, mid := vm.MapPage(d, FRAMEBUFFER / PGSIZE, 0xE000_0000, 6);
  }

  /** The first process: a directory and one page, at address 0. */
  method OnePageProcess() returns (vm: VirtualMemory, d: int)
    ensures fresh(vm) && fresh(vm.kmem) && vm.Valid() && IsDir(vm.S(), d)
    ensures vm.kmem.phystop == 0x800_0000 && vm.kmem.free != []
    ensures P(Walk(vm.S(), d, 0, 0)) && forall p :: 0 < p < USER * ENTRIES ==> !P(Walk(vm.S(), d, PDX(p), PTX(p)))
  {
    hide Sound, Walk, Spells, Filled, NewPage;
    vm, d := SmallSpace();
    ghost var s := vm.S();
    forall p | 0 <= p < USER * ENTRIES ensures !P(Walk(s, d, PDX(p), PTX(p))) {
      PnoSplits(p);
      NoTableNoPage(s, d, PDX(p), PTX(p));
    }
    assert !P(Walk(s, d, PDX(0), PTX(0)));
    var m := vm.InitUvm(d, ZeroPage());
    OneFilled(s, vm.S(), d, (i, j) => Want(7, ZeroPage()), vm.kmem.phystop);
  }

  lemma OneFilled(s0: Space, s: Space, d: int, want: (int, int) -> Want, top: int)
    requires Filled(s0, s, d, 0, 1, want, top) && IsDir(s0, d)
    requires forall p :: 0 <= p < USER * ENTRIES ==> !P(Walk(s0, d, PDX(p), PTX(p)))
    ensures P(Walk(s, d, 0, 0)) && forall p :: 0 < p < USER * ENTRIES ==> !P(Walk(s, d, PDX(p), PTX(p)))
  {
    hide Walk;
    assert InRange(0, 0, 0, 1) && Slot(0, 0);
    forall p | 0 < p < USER * ENTRIES ensures !P(Walk(s, d, PDX(p), PTX(p))) {
      PnoSplits(p);
    }
  }

  /** A page directory without pages, and four free pages. */
  method SmallSpace() returns (vm: VirtualMemory, d: int)
    ensures fresh(vm) && fresh(vm.kmem) && vm.Valid() && IsDir(vm.S(), d) && |vm.kmem.free| == 4
    ensures vm.kmem.phystop == 0x800_0000 && forall i :: 0 <= i < USER ==> !P(PdeAt(vm.S(), d, i))
  {
    hide Sound, Walk, Spells;
    var kmem := new FrameAllocator(PGSIZE, 0x800_0000);
    for i := 0 to 5
      invariant kmem.Valid() && |kmem.free| == i && fresh(kmem)
      invariant forall p :: p in kmem.free ==> p < (i + 1) * PGSIZE
    {
      var ok := kmem.KfreePage((i + 1) * PGSIZE);
    }
    vm := new VirtualMemory(kmem);
    d := vm.SetupPageDirectory();
  }

  /** Others allocate until nothing is left. */
  method TakeRest(vm: VirtualMemory)
    requires vm.Valid()
    modifies vm.kmem
    ensures vm.Valid() && vm.S() == old(vm.S()) && vm.kmem.free == []
  {
    hide Sound, Spells;
    var p := vm.kmem.KallocPage();
    while p != NIL
      invariant vm.Valid() && vm.S() == old(vm.S()) && (p == NIL ==> vm.kmem.free == [])
      decreases |vm.kmem.free| + if p == NIL then 0 else 1
    {
      p := vm.kmem.KallocPage();
    }
  }

  lemma UndoneAt(s0: Space, s: Space, d: int, lo: int, hi: int, p: int)
    requires Undone(s0, s, d, lo, hi) && IsDir(s0, d) && lo <= p < hi && 0 <= p < USER * ENTRIES
    ensures IsDir(s, d) && !P(Walk(s, d, PDX(p), PTX(p)))
  {
    PnoSplits(p);
  }

  /** How many pages the bytes [va, va + size) touch. */
  function PagesOf(va: nat, size: nat): (n: nat)
    requires size > 0
    ensures n > 0
  {
    (va + size - 1) / PGSIZE - va / PGSIZE + 1
  }

  /** n consecutive frames. */
  function FramesFrom(pa: int, n: nat): set<int> { set k: nat | k < n :: pa + k * PGSIZE }

  lemma FramesNone(pa: int)
    ensures FramesFrom(pa, 0) == {}
  {}

  lemma FramesNext(pa: int, n: nat, m: nat)
    requires n < m
    ensures pa + n * PGSIZE in FramesFrom(pa, m) && pa + n * PGSIZE !in FramesFrom(pa, n)
    ensures FramesFrom(pa, n + 1) == FramesFrom(pa, n) + {pa + n * PGSIZE}
  {
    assert forall k: nat :: pa + k * PGSIZE == pa + n * PGSIZE ==> k == n;
  }

  lemma ConservedSame(own: map<int, Role>, free: seq<int>)
    ensures Conserved(own, free, own, free, {})
  {}

  lemma ConservedTrans(own0: map<int, Role>, free0: seq<int>, own1: map<int, Role>, free1: seq<int>,
                       own: map<int, Role>, free: seq<int>)
    requires Conserved(own0, free0, own1, free1, {}) && Conserved(own1, free1, own, free, {})
    ensures Conserved(own0, free0, own, free, {})
  {}

  lemma OneTaken(free: seq<int>, rest: seq<int>, mem: int)
    requires free != [] && mem == free[0] && rest == free[1..]
    ensures free == [mem] + rest
  {}

  lemma WithoutOwn(s0: Space, s: Space, d: int)
    requires Without(s0, s, d)
    ensures forall f :: f in s.own <==> f in s0.own && !Belongs(s0.own, d, f)
  {}

  lemma NothingUnmapped(s: Space, d: int, lo: int)
    ensures Unmapped(s, d, lo, lo)
  {}

  lemma RangedWalk(s0: Space, s: Space, d: int, lo: int, p: int, pa: int, flags: nat)
    requires IsDir(s0, d) && Ranged(s0, s, d, lo, p, pa, flags) && lo <= p && 0 <= p < USER * ENTRIES
    ensures Walk(s, d, PDX(p), PTX(p)) == Walk(s0, d, PDX(p), PTX(p))
  {
    PnoSplits(p);
    hide Walk;
  }

  /** A frame more, through a page table that may be new. */
  lemma RangeStep(s0: Space, s: Space, mid: Space, d: int, lo: int, p: int, pa: int, flags: nat, top: int, data: Data)
    requires IsDir(s0, d) && Ranged(s0, s, d, lo, p, pa, flags) && Sound(s, top) && IsDir(s, d)
    requires lo <= p && 0 <= p < USER * ENTRIES && flags % 2 == 1
    requires pa + (p - lo) * 4096 < top ==> pa + (p - lo) * 4096 !in s.own
    requires || mid == s
             || (!P(PdeAt(s, d, PDX(p)))
                 && exists f :: f !in s.own && f < top && f != pa + (p - lo) * 4096 && mid == AddTable(s, d, PDX(p), f))
    requires Sound(mid, top) && IsDir(mid, d) && P(PdeAt(mid, d, PDX(p)))
    ensures PdeAt(mid, d, PDX(p)).addr in mid.tables && 0 <= PTX(p) < ENTRIES
    ensures var e := Entry(pa + (p - lo) * 4096, flags);
            && Ranged(s0, AddLeaf(mid, d, PDX(p), PTX(p), e, data, top), d, lo, p + 1, pa, flags)
            && IsDir(AddLeaf(mid, d, PDX(p), PTX(p), e, data, top), d)
  {
    PnoSplits(p);
    hide Sound, Walk, PdeAt;
    if mid != s {
      var f :| f !in s.own && f < top && f != pa + (p - lo) * 4096 && mid == AddTable(s, d, PDX(p), f);
      RangeTable(s0, s, d, lo, p, pa, flags, top, PDX(p), f);
    }
    RangeLeaf(s0, mid, d, lo, p, pa, flags, top, Entry(pa + (p - lo) * 4096, flags), data);
  }

  lemma FilledDir(s0: Space, s: Space, d: int, lo: int, p: int, want: (int, int) -> Want, top: int)
    requires Filled(s0, s, d, lo, p, want, top)
    ensures forall c :: IsDir(s0, c) ==> IsDir(s, c)
  {}

  lemma FilledWalk(s0: Space, s: Space, d: int, lo: int, p: int, want: (int, int) -> Want, top: int)
    requires IsDir(s0, d) && Filled(s0, s, d, lo, p, want, top) && lo <= p && 0 <= p < USER * ENTRIES
    ensures Walk(s, d, PDX(p), PTX(p)) == Walk(s0, d, PDX(p), PTX(p))
  {
    PnoSplits(p);
    hide Walk;
  }

  lemma MappedIn(s: Space, d: int, lo: int, hi: int, p: int)
    requires lo <= p < hi && 0 <= p < USER * ENTRIES && P(Walk(s, d, PDX(p), PTX(p)))
    ensures !Unmapped(s, d, lo, hi)
  {
    PnoSplits(p);
    hide Walk;
  }

  /** A page more, through a page table that may be new. */
  lemma FillStep(s0: Space, s: Space, mid: Space, d: int, lo: int, p: int, want: (int, int) -> Want, top: int,
                 e: Entry, data: Data)
    requires IsDir(s0, d) && Filled(s0, s, d, lo, p, want, top) && Sound(s, top) && IsDir(s, d)
    requires lo <= p && 0 <= p < USER * ENTRIES
    requires || mid == s
             || (!P(PdeAt(s, d, PDX(p)))
                 && exists f :: f !in s.own && f < top && f != e.addr && mid == AddTable(s, d, PDX(p), f))
    requires Sound(mid, top) && IsDir(mid, d) && P(PdeAt(mid, d, PDX(p))) && P(e)
    requires e.addr !in s.own && e.addr < top && want(PDX(p), PTX(p)) == Want(e.flags, data)
    ensures PdeAt(mid, d, PDX(p)).addr in mid.tables && 0 <= PTX(p) < ENTRIES
    ensures Filled(s0, AddLeaf(mid, d, PDX(p), PTX(p), e, data, top), d, lo, p + 1, want, top)
  {
    PnoSplits(p);
    hide Sound, Filled, Walk, PdeAt;
    if mid != s {
      var f :| f !in s.own && f < top && f != e.addr && mid == AddTable(s, d, PDX(p), f);
      FillTable(s0, s, d, lo, p, want, top, PDX(p), f);
    }
    FillLeaf(s0, mid, d, lo, p, want, top, e, data);
  }

  lemma WalkIs(s: Space, d: int, i: int, j: int)
    requires IsDir(s, d) && Slot(i, j) && P(PdeAt(s, d, i)) && PdeAt(s, d, i).addr in s.tables
    ensures Walk(s, d, i, j) == Shown(s.tables[PdeAt(s, d, i).addr][j])
  {}

  lemma NoTableNoPage(s: Space, d: int, i: int, j: int)
    requires !P(PdeAt(s, d, i))
    ensures !P(Walk(s, d, i, j))
  {}

  lemma PresentTable(s: Space, d: int, i: int, j: int)
    requires P(Walk(s, d, i, j))
    ensures P(PdeAt(s, d, i))
  {}

  lemma TableStepWalk(s: Space, d: int, i: int, top: int)
    requires Sound(s, top) && IsDir(s, d) && 0 <= i < USER
    ensures forall f :: f !in s.own && f < top && !P(PdeAt(s, d, i)) ==> SameWalks(s, AddTable(s, d, i, f))
  {
    hide Sound, SameWalks;
    forall f | f !in s.own && f < top && !P(PdeAt(s, d, i)) ensures SameWalks(s, AddTable(s, d, i, f)) {
      AddTableWalk(s, d, i, f, top);
    }
  }

  lemma TrimOwn(s0: Space, s: Space, d: int, lo: int, hi: int)
    requires Trimmed(s0, s, d, lo, hi)
    ensures forall f :: f in s.own ==> f in s0.own
    ensures IsDir(s0, d) ==> IsDir(s, d)
  {}

  lemma DropLeafIs(s: Space, d: int, i: int, j: int, top: int)
    requires IsDir(s, d) && Slot(i, j) && P(PdeAt(s, d, i)) && PdeAt(s, d, i).addr in s.tables
    ensures var pt := PdeAt(s, d, i).addr;
            var f := Walk(s, d, i, j).addr;
            DropLeaf(s, d, i, j, top) ==
            Space(s.tables[pt := s.tables[pt][j := ZERO]], s.data, if f < top then s.own - {f} else s.own)
  {}

  lemma TableThere(s: Space, d: int, i: int, top: int)
    requires Sound(s, top) && IsDir(s, d) && 0 <= i < USER && P(PdeAt(s, d, i))
    ensures PdeAt(s, d, i).addr in s.tables && PdeAt(s, d, i).addr in s.own
  {
    assert TableOwned(s, d, i);
    assert Backed(s, PdeAt(s, d, i).addr);
  }
}
