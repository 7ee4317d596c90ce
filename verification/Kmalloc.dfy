/** kmalloc.c: the next-fit allocator over the circular free list. */
module Kmalloc {
  import opened Basics
  import opened KmallocHeap

  const HEADER := 8           // sizeof(Header) on the 32-bit target

  /** nunits: a 32-bit unsigned sum, rounded up, plus one unit for the header. */
  function Units(nbytes: nat): (n: nat)
    ensures 1 <= n
  {
    (nbytes + HEADER - 1) % U32 / HEADER + 1
  }

  /** The block is large enough for the request exactly when the sum does not wrap. */
  lemma UnitsEnough(nbytes: nat)
    requires nbytes < U32
    ensures HEADER * (Units(nbytes) - 1) >= nbytes <==> nbytes <= U32 - HEADER
    ensures nbytes <= U32 - HEADER ==> HEADER * (Units(nbytes) - 1) < nbytes + HEADER
  {}

  /** The int that resize_kernel_page_directory receives. */
  function AsInt(x: int): int {
    var y := x % U32;
    if y >= TWO31 then y - U32 else y
  }

  /** The size asked for, header included, is not a positive int. */
  predicate TooLarge(nunits: int) { HEADER * nunits >= TWO31 }

  /** Requests of 2^31 - 15 bytes and more are too large, up to where the sum of Units wraps. */
  lemma TooLargeRequests(nbytes: nat)
    requires nbytes < U32
    ensures TooLarge(Units(nbytes)) <==> TWO31 - 15 <= nbytes <= U32 - HEADER
  {}

  /** Broken: resize_kernel_page_directory gets a size that is zero or negative, so it hands
      out address 0 or shrinks the kernel heap; the model ends there. */
  datatype Outcome = NoMemory | Broken | Memory(ap: int)

  /** What kmalloc has looked at since it started behind freep: everything from there up to
      p, around the wrap if it has been passed. */
  ghost predicate Scanned(h: Heap, p: int, wrapped: bool, n: int) {
    && p in h.free
    && (if wrapped then p <= h.freep else h.freep < p)
    && forall g :: g in h.free && g in h.size && (if wrapped then g > h.freep || g < p else h.freep < g < p) ==>
                     h.size[g] < n
  }

  ghost predicate SomeFit(h: Heap, n: int) { exists g :: g in h.free && g in h.size && h.size[g] >= n }

  lemma ScanStart(h: Heap, n: int)
    requires h.Ok()
    ensures h.freep in h.ptr && h.ptr[h.freep] in h.free
    ensures Scanned(h, h.ptr[h.freep], h.ptr[h.freep] <= h.freep, n)
  {
    RingMembers(h.base, h.free, h.ptr, h.freep);
    RingLowest(h.base, h.free, h.ptr);
  }

  lemma RingLowest(base: int, free: set<int>, ptr: map<int, int>)
    requires IsRing(base, free, ptr)
    ensures forall f :: f in free ==> base <= f
  {
    forall f | f in free ensures base <= f { RingMembers(base, free, ptr, f); }
  }

  lemma ScanStep(h: Heap, p: int, wrapped: bool, n: int)
    requires h.Ok() && Scanned(h, p, wrapped, n) && p in h.size && h.size[p] < n && p != h.freep
    ensures p in h.ptr && Scanned(h, h.ptr[p], wrapped || h.ptr[p] <= p, n)
    ensures h.ptr[p] <= p ==> !wrapped
  {
    hide IsRing, Gaps, Heap.Sizes, Heap.Tiled;
    RingMembers(h.base, h.free, h.ptr, p);
    RingLowest(h.base, h.free, h.ptr);
  }

  /** Back at freep: every block has been looked at. */
  lemma ScanEnd(h: Heap, wrapped: bool, n: int)
    requires Scanned(h, h.freep, wrapped, n) && h.freep in h.size && h.size[h.freep] < n
    ensures !SomeFit(h, n)
  {}

  /** The fresh block is an ordinary live block whose units are exactly the fresh ones. */
  lemma FreshBlock(h: Heap, nu: int)
    requires h.Ok() && nu > 0
    ensures var k := Grown(h, nu);
            && k.Ok() && h.brk !in h.live && 0 < h.brk && h.brk in k.live && k.live[h.brk] == nu
            && k.FreeUnits() == h.FreeUnits() && k.UnitsOf(h.brk) == Range(h.brk, nu)
  {
    GrownOk(h, nu);
    AtBreak(h);
    GrownUnits(h, nu);
    GrownSpan(h, nu);
  }

  lemma GrownSpan(h: Heap, nu: int)
    requires h.Sizes() && h.Tiled() && nu > 0 && h.brk !in h.free && Grown(h, nu).Sizes() && Grown(h, nu).Tiled()
    ensures Grown(h, nu).UnitsOf(h.brk) == Range(h.brk, nu)
  {
    hide Heap.Sizes, Heap.Tiled;
    var k := Grown(h, nu);
    assert k.Block(h.brk);
    forall x ensures x in k.UnitsOf(h.brk) <==> x in Range(h.brk, nu) { Span(k, h.brk, x); }
  }

  lemma OkMembers(h: Heap, p: int)
    requires h.Ok()
    ensures h.freep in h.free && 0 < h.base
    ensures p in h.free ==> p in h.ptr && p in h.size && h.ptr[p] in h.free && h.base <= p <= h.brk
  {
    if p in h.free {
      RingMembers(h.base, h.free, h.ptr, p);
      FreeBelow(h, p);
    }
  }

  /** One turn of kfree's search that does not find the place. */
  lemma SearchStep(h: Heap, p: int, bp: int)
    requires h.Ok() && bp in h.live && p in h.free && p in h.ptr && !(p < bp < h.ptr[p])
    ensures h.ptr[p] <= p ==> h.ptr[p] == h.base < bp
    ensures h.ptr[p] > p && p < bp ==> h.ptr[p] < bp
  {
    hide IsRing, Gaps, Heap.Tiled;
    RingMembers(h.base, h.free, h.ptr, p);
    assert h.Block(bp);
    assert bp !in h.free;
  }

  /** Where it stops is where bp belongs. */
  lemma SearchDone(h: Heap, p: int, bp: int)
    requires h.Ok() && bp in h.live && p in h.free && p in h.ptr
    requires p < bp < h.ptr[p] || (p >= h.ptr[p] && (bp > p || bp < h.ptr[p]))
    ensures Before(h, p, bp)
  {
    hide IsRing, Gaps, Heap.Tiled;
    RingMembers(h.base, h.free, h.ptr, p);
    assert h.Block(bp);
    forall g | g in h.free && g < bp ensures g <= p {}
  }

  class KernelHeap {
    const base: int
    const start: int            // KHEAP_START
    var brk: int                // kpgdir_break
    var freep: int              // 0 until the list exists
    var ptr: map<int, int>
    var size: map<int, int>
    ghost var free: set<int>
    ghost var live: map<int, int>
    ghost var who: map<int, int>

    ghost function H(): Heap
      reads this
    {
      Heap(base, start, brk, freep, ptr, size, free, live, who)
    }

    ghost predicate Valid()
      reads this
    {
      if freep == 0 then 0 < base < start == brk && free == {} && live == map[] && who == map[]
      else H().Ok()
    }

    constructor (base: int, start: int)
      requires 0 < base < start
      ensures Valid() && live == map[] && this.base == base && this.start == start
    {
      this.base, this.start, brk, freep := base, start, start, 0;
      ptr, size, free, live, who := map[], map[], {}, map[], map[];
    }

    /** kfree's search for the free block before bp. */
    method FindPlace(bp: int) returns (p: int)
      requires freep != 0 && H().Ok() && bp in live
      ensures Before(H(), p, bp) && 0 < p < bp
    {
      hide IsRing, Gaps, Heap.Sizes, Heap.Tiled, Heap.Ok;
      ghost var h := H();
      p := freep;
      OkMembers(h, p);
      while !(p < bp < ptr[p])
        invariant p in free && p in ptr && p <= brk
        decreases if p < bp then 0 else 1, brk - p
      {
        OkMembers(h, p);
        OkMembers(h, ptr[p]);
        SearchStep(h, p, bp);
        if p >= ptr[p] && (bp > p || bp < ptr[p]) {
          break;
        }
        p := ptr[p];
      }
      OkMembers(h, p);
      SearchDone(h, p, bp);
    }

    /** kfree(ap) for the block with header bp. */
    method Kfree(bp: int)
      requires Valid() && bp in live
      modifies this`freep, this`ptr, this`size, this`free, this`live, this`who
      ensures Valid() && freep != 0
      ensures live == old(live) - {bp} && Before(old(H()), freep, bp)
      ensures H().FreeUnits() == old(H().FreeUnits()) + old(H().UnitsOf(bp))
      ensures bp in who && who[bp] in free && who[bp] in size && size[who[bp]] >= old(live[bp])
    {
      hide Heap.Ok, Before, Heap.FreeUnits, Heap.UnitsOf, JoinNext;
      ghost var h := H();
      var p := FindPlace(bp);
      JoinNextOk(h, p, bp);
      JoinNextUnits(h, p, bp);
      ghost var k := JoinNext(h, p, bp);
      JoinPrevOk(k, p, bp);
      MergeNext(p, bp);
      ghost var m := JoinPrev(k, p, bp);
      if p + size[p] == bp {
        size := size[p := size[p] + size[bp]];
        ptr := ptr[p := ptr[bp]];
      } else {
        ptr := ptr[p := bp];
      }
      freep := p;
      free, live, who := m.free, m.live, m.who;
      assert H() == m;
    }

    /** kfree: coalesce with the next block if they touch, otherwise just aim bp at it. */
    method MergeNext(p: int, bp: int)
      requires p in ptr && bp in size && ptr[p] in size && ptr[p] in ptr && p != bp
      modifies this`size, this`ptr
      ensures var k := JoinNext(old(H()), p, bp);
              && p in k.ptr && bp in ptr && size == k.size
              && ptr[p := ptr[bp]] == k.ptr && ptr[p := bp] == k.ptr[bp := k.ptr[p]][p := bp]
    {
      var n := ptr[p];
      if bp + size[bp] == n {
        size := size[bp := size[bp] + size[n]];
        ptr := ptr[bp := ptr[n]];
      } else {
        ptr := ptr[bp := n];
      }
    }

    /** resize_kernel_page_directory: the old break, or -1. Whether memory is left is up to
        the environment. */
    method Sbrk(nu: int) returns (p: int)
      requires nu > 0 && brk > 0
      modifies this`brk
      ensures p == -1 ==> brk == old(brk)
      ensures p != -1 ==> p == old(brk) && brk == old(brk) + nu
    {
      if * {
        p := -1;
      } else {
        p := brk;
        brk := brk + nu;
      }
    }

    /** morecore: at least 4096 fresh units are put on the list through kfree. */
    method Morecore(nu: int) returns (r: Outcome)
      requires Valid() && freep != 0 && 0 < nu && HEADER * nu <= U32
      modifies this`brk, this`freep, this`ptr, this`size, this`free, this`live, this`who
      ensures r.Broken? <==> TooLarge(nu)
      ensures r.NoMemory? ==> H() == old(H())
      ensures r.Memory? ==> Valid() && freep != 0 && r.ap == freep && live == old(live)
      ensures r.Memory? ==> brk == old(brk) + if nu < 4096 then 4096 else nu
      ensures r.Memory? ==> SomeFit(H(), nu)
      ensures r.Memory? ==> H().FreeUnits() == old(H().FreeUnits()) + Range(old(brk), brk - old(brk))
    {
      hide Heap.Ok, Heap.FreeUnits, Heap.UnitsOf, IsRing, Grown;
      var n := if nu < 4096 then 4096 else nu;
      if AsInt(n * HEADER) <= 0 {
        return Broken;
      }
      ghost var h := H();
      FreshBlock(h, n);
      var p := Sbrk(n);
      if p == -1 {
        return NoMemory;
      }
      GrownForm(h, n);
      size := size[p := n];
      live := live[p := n];
      who := Grown(h, n).who;
      assert H() == Grown(h, n);
      Kfree(p);
      assert live == old(live);
      FitWitness(H(), who[p], nu);
      return Memory(freep);
    }

    /** The body of kmalloc's loop once p is large enough: the whole block when it fits
        exactly, otherwise its tail. */
    method Take(prevp: int, p: int, nunits: int) returns (b: int)
      requires freep != 0 && H().Ok() && 0 < nunits
      requires prevp in free && prevp in ptr && ptr[prevp] == p && p in size && size[p] >= nunits && p != base
      modifies this`freep, this`ptr, this`size, this`free, this`live, this`who
      ensures Valid() && freep == prevp != 0
      ensures b == p + old(size[p]) - nunits
      ensures Took(old(H()), H(), b, nunits)
    {
      hide IsRing, Gaps, Heap.Sizes, Heap.Tiled, Heap.Ok, Next, Heap.FreeUnits, Heap.UnitsOf;
      ghost var h := H();
      OkMembers(h, prevp);
      OkMembers(h, p);
      OkSizes(h);
      b := p;
      if size[p] == nunits {
        TakeWholeOk(h, prevp, p);
        TookWhole(h, prevp, p);
        ghost var k := TakeWhole(h, prevp, p);
        ptr := ptr[prevp := ptr[p]];
        free, live := k.free, k.live;
        freep := prevp;
        assert H() == k;
      } else {
        TakeTailOk(h, prevp, p, nunits);
        TookTail(h, prevp, p, nunits);
        ghost var k := TakeTail(h, prevp, p, nunits);
        size := size[p := size[p] - nunits];
        b := p + size[p];
        size := size[b := nunits];
        live, who := k.live, k.who;
        freep := prevp;
        assert H() == k;
      }
    }

    /** kmalloc's first use of the list. */
    method StartList(ghost n: int)
      requires Valid() && n > 0
      modifies this`freep, this`ptr, this`size, this`free
      ensures freep != 0 && H().Ok() && H().FreeUnits() == old(H()).FreeUnits()
      ensures if old(freep) == 0 then !SomeFit(H(), n) else H() == old(H())
    {
      hide Heap.Ok, Heap.FreeUnits, SomeFit;
      if freep == 0 {
        InitOk(base, start, n);
        NoUnits(H());
        size, ptr, freep := map[base := 0], map[base := base], base;
        free := {base};
        assert H() == Initial(base, start);
      }
    }

    /** kmalloc. It breaks exactly on a request that is too large and does not fit what is
        free already. */
    method Alloc(nbytes: nat) returns (r: Outcome)
      requires Valid()
      modifies this
      ensures r.Broken? <==> TooLarge(Units(nbytes)) && (old(freep) == 0 || !old(SomeFit(H(), Units(nbytes))))
      ensures !r.Broken? ==> Valid() && freep != 0
      ensures r.NoMemory? ==>
        (&& live == old(live) && brk == old(brk)
         && !SomeFit(H(), Units(nbytes)) && H().FreeUnits() == old(H().FreeUnits()))
      ensures r.Memory? ==> r.ap - 1 !in old(live) && live == old(live)[r.ap - 1 := Units(nbytes)] && brk >= old(brk)
      ensures r.Memory? ==>
        (var mine := H().UnitsOf(r.ap - 1);
         H().FreeUnits() !! mine && H().FreeUnits() + mine == old(H().FreeUnits()) + Range(old(brk), brk - old(brk)))
      ensures old(freep) != 0 && old(SomeFit(H(), Units(nbytes))) ==>
        r.Memory? && brk == old(brk) && NextFit(old(H()), r.ap - 1, Units(nbytes))
    {
      hide Heap.Ok, Heap.FreeUnits, Heap.UnitsOf, IsRing, Scanned, Next, SomeFit, Took, NextFit, Range, TooLarge;
      var nunits := Units(nbytes);
      ghost var h0 := H();
      StartList(nunits);
      ghost var h := H();
      ScanStart(h, nunits);
      OkMembers(h, freep);
      OkMembers(h, ptr[freep]);
      ghost var fits, wrapped := false, ptr[freep] <= freep;
      var prevp := freep;
      var p := ptr[prevp];
      while true
        invariant freep != 0 && H() == h && h.Ok() && live == old(live) && brk >= old(brk)
        invariant prevp in free && prevp in ptr && ptr[prevp] == p && p in free && p in size && p <= brk
        invariant Scanned(h, p, wrapped, nunits)
        invariant fits ==> SomeFit(h, nunits)
        invariant fits ==> !TooLarge(nunits)
        invariant !fits && old(freep) == 0 ==> !SomeFit(h, nunits)
        invariant !fits ==> brk == old(brk)
        invariant old(freep) != 0 && !fits ==> h == h0
        invariant old(freep) != 0 && fits ==> !SomeFit(h0, nunits)
        invariant h.FreeUnits() == h0.FreeUnits() + Range(old(brk), brk - old(brk))
        decreases if fits then 0 else 1, if wrapped then 0 else 1, brk - p
      {
        if size[p] >= nunits {
          NotBase(h, p);
          FitsHere(h, p, wrapped, nunits);
          var b := Take(prevp, p, nunits);
          TookFacts(h, H(), b, nunits);
          return Memory(b + 1);
        }
        if p == freep {
          ScanEnd(h, wrapped, nunits);
          r := Morecore(nunits);
          if !r.Memory? {
            return r;
          }
          p := r.ap;
          h, fits := H(), true;
          ScanStart(h, nunits);
          OkMembers(h, p);
          wrapped := ptr[p] <= p;
        } else {
          ScanStep(h, p, wrapped, nunits);
          wrapped := wrapped || ptr[p] <= p;
        }
        OkMembers(h, p);
        prevp := p;
        p := ptr[p];
        OkMembers(h, p);
      }
    }
  }

  /** k is h after block b of n units was taken from the free units. */
  ghost predicate Took(h: Heap, k: Heap, b: int, n: int) {
    && b !in h.live && k.live == h.live[b := n]
    && k.FreeUnits() == h.FreeUnits() - k.UnitsOf(b) && k.UnitsOf(b) <= h.FreeUnits()
    && k.base == h.base && k.start == h.start && k.brk == h.brk
  }

  lemma TookFacts(h: Heap, k: Heap, b: int, n: int)
    requires Took(h, k, b, n)
    ensures b !in h.live && k.live == h.live[b := n] && k.brk == h.brk
    ensures k.FreeUnits() !! k.UnitsOf(b) && k.FreeUnits() + k.UnitsOf(b) == h.FreeUnits()
  {}

  lemma TookWhole(h: Heap, prevp: int, p: int)
    requires h.Sizes() && p in h.free && p in h.ptr && p in h.size && p != h.base
    ensures Took(h, TakeWhole(h, prevp, p), p, h.size[p])
  {}

  lemma TookTail(h: Heap, prevp: int, p: int, n: int)
    requires h.Ok() && p in h.free && p != h.base && p in h.size && 0 < n < h.size[p]
    ensures Took(h, TakeTail(h, prevp, p, n), p + h.size[p] - n, n)
  {
    hide IsRing, Gaps;
    NewInside(h, p, p + h.size[p] - n);
    TakeTailUnits(h, prevp, p, n);
  }

  /** b is cut from the end of the first block behind freep that is large enough. */
  ghost predicate NextFit(h: Heap, b: int, n: int) {
    exists p, wrapped :: Scanned(h, p, wrapped, n) && p in h.size && h.size[p] >= n && b == p + h.size[p] - n
  }

  lemma FitsHere(h: Heap, p: int, wrapped: bool, n: int)
    requires Scanned(h, p, wrapped, n) && p in h.size && h.size[p] >= n
    ensures SomeFit(h, n) && NextFit(h, p + h.size[p] - n, n)
  {}

  lemma OkSizes(h: Heap)
    requires h.Ok()
    ensures h.Sizes()
  {}

  lemma FitWitness(h: Heap, g: int, n: int)
    requires g in h.free && g in h.size && h.size[g] >= n
    ensures SomeFit(h, n)
  {}

  lemma NoUnits(h: Heap)
    requires h.who == map[]
    ensures h.FreeUnits() == {}
  {}

  lemma NotBase(h: Heap, p: int)
    requires h.Ok() && p in h.size && h.size[p] > 0
    ensures p != h.base
  {}

  /** The list right after its first use: base alone. */
  function Initial(base: int, start: int): Heap {
    Heap(base, start, start, base, map[base := base], map[base := 0], {base}, map[], map[])
  }

  lemma InitOk(base: int, start: int, n: int)
    requires 0 < base < start && n > 0
    ensures Initial(base, start).Ok() && Initial(base, start).FreeUnits() == {}
    ensures !SomeFit(Initial(base, start), n)
  {}

  lemma GrownForm(h: Heap, nu: int)
    ensures var k := Grown(h, nu);
            k == h.(size := h.size[h.brk := nu], live := h.live[h.brk := nu], brk := h.brk + nu, who := k.who)
  {}

  /** The first kmalloc of 2^31 - 15 bytes breaks; one byte less is an ordinary request. */
  method FirstTooLarge(heap: KernelHeap) returns (r: Outcome)
    requires heap.Valid() && heap.freep == 0
    modifies heap
    ensures r.Broken? && !TooLarge(Units(TWO31 - 16))
  {
    TooLargeRequests(TWO31 - 15);
    TooLargeRequests(TWO31 - 16);
    r := heap.Alloc(TWO31 - 15);
  }
}
