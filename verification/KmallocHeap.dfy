/** The shape of the kernel heap: a circular free list in address order and the blocks
    that tile the memory obtained so far. Addresses and sizes are in units of a Header. */
module KmallocHeap {
  /** n follows f on a list of the addresses `free`: the next one up, or base after the last. */
  ghost predicate Next(base: int, free: set<int>, f: int, n: int) {
    && n in free
    && (n <= f ==> n == base && forall g :: g in free ==> g <= f)
    && (n > f ==> forall g :: g in free && g > f ==> g >= n)
  }

  /** A circular list in address order with one wrap, whose lowest member is base. */
  ghost predicate IsRing(base: int, free: set<int>, ptr: map<int, int>) {
    && base in free && free <= ptr.Keys
    && forall f {:trigger ptr[f]} :: f in free ==> base <= f && Next(base, free, f, ptr[f])
  }

  ghost predicate Gaps(free: set<int>, size: map<int, int>) {
    forall f, g :: f in free && g in free && f < g && f in size ==> f + size[f] < g
  }

  lemma NextUnique(base: int, free: set<int>, f: int, p: int, n: int)
    requires Next(base, free, f, n) && Next(base, free, p, n) && f in free && p in free && n != base
    ensures f == p
  {}

  lemma NextSkip(base: int, free: set<int>, p: int, n: int, m: int)
    requires Next(base, free, p, n) && Next(base, free, n, m) && n != base && base <= p
    ensures Next(base, free - {n}, p, m)
  {}

  lemma NextLess(base: int, free: set<int>, f: int, x: int, n: int)
    requires Next(base, free, f, x) && x != n
    ensures Next(base, free - {n}, f, x)
  {}

  /** Unlinking the member after p. */
  lemma RingRemove(base: int, free: set<int>, ptr: map<int, int>, p: int)
    requires IsRing(base, free, ptr) && p in free && ptr[p] != base
    ensures ptr[p] in ptr && IsRing(base, free - {ptr[p]}, ptr[p := ptr[ptr[p]]])
  {
    hide Next;
    var n := ptr[p];
    RingMembers(base, free, ptr, p);
    NextSkip(base, free, p, n, ptr[n]);
    forall f | f in free - {n} && f != p ensures Next(base, free - {n}, f, ptr[f]) {
      if ptr[f] == n { NextUnique(base, free, f, p, n); }
      NextLess(base, free, f, ptr[f], n);
    }
  }

  lemma NextMore(base: int, free: set<int>, f: int, x: int, p: int, b: int)
    requires Next(base, free, f, x) && p in free && f in free && f != p && p < b
    requires forall g :: g in free && g > p ==> g > b
    ensures Next(base, free + {b}, f, x)
  {}

  lemma NextSplit(base: int, free: set<int>, p: int, n: int, b: int)
    requires Next(base, free, p, n) && p < b && (forall g :: g in free && g > p ==> g > b)
    ensures Next(base, free + {b}, p, b) && Next(base, free + {b}, b, n)
  {}

  /** Linking a new member between p and its successor. */
  lemma RingInsert(base: int, free: set<int>, ptr: map<int, int>, p: int, b: int)
    requires IsRing(base, free, ptr) && p in free && p < b && b !in free
    requires forall g :: g in free && g > p ==> g > b
    ensures IsRing(base, free + {b}, ptr[b := ptr[p]][p := b])
  {
    hide Next;
    NextSplit(base, free, p, ptr[p], b);
    forall f | f in free && f != p ensures Next(base, free + {b}, f, ptr[f]) {
      NextMore(base, free, f, ptr[f], p, b);
    }
  }

  /** ptr and size are the header fields; `free` are the blocks on the list, `live` the
      blocks handed out with their sizes, and `who` says which block a unit belongs to. */
  datatype Heap = Heap(base: int, start: int, brk: int, freep: int,
                       ptr: map<int, int>, size: map<int, int>,
                       free: set<int>, live: map<int, int>, who: map<int, int>)
  {
    /** The list is circular and holds base and freep. */
    ghost predicate Ring() {
      freep in free && IsRing(base, free, ptr) && (forall f :: f in free ==> f in size)
    }

    predicate Block(b: int) { b in live || (b in free && b != base) }

    /** Sizes are positive and every block lies inside the heap, above the list head. */
    ghost predicate Sizes() {
      && 0 < base < start <= brk
      && base in size && size[base] == 0
      && (forall b :: Block(b) ==> start <= b && b in size && size[b] > 0 && b + size[b] <= brk)
      && (forall b :: b in live ==> b !in free && size[b] == live[b])
    }

    /** Every unit of the heap belongs to exactly one block. */
    ghost predicate Tiled() {
      && (forall x :: x in who <==> start <= x < brk)
      && Within() && Whole()
    }

    /** A unit lies inside the block it belongs to, and a block owns all its units. */
    ghost predicate Within() {
      forall x :: x in who ==> Block(who[x]) && who[x] in size && who[x] <= x < who[x] + size[who[x]]
    }

    ghost predicate Whole() {
      forall b, x :: Block(b) && b in size && b <= x < b + size[b] ==> x in who && who[x] == b
    }

    /** No free block touches the next one. */
    ghost predicate Apart() { Gaps(free, size) }

    ghost predicate Ok() { Ring() && Sizes() && Tiled() && Apart() }

    /** The units that are free, that are handed out, and those of one block. */
    ghost function FreeUnits(): set<int> { set x | x in who && who[x] in free }
    ghost function LiveUnits(): set<int> { set x | x in who && who[x] in live }
    ghost function UnitsOf(b: int): set<int> { set x | x in who && who[x] == b }
  }

  /** Two blocks never share a unit. */
  lemma Disjoint(h: Heap, a: int, b: int)
    requires h.Sizes() && h.Tiled() && h.Block(a) && h.Block(b) && a != b
    ensures a + h.size[a] <= b || b + h.size[b] <= a
  {
    if a < b {
      assert h.who[b] == b;
    } else {
      assert h.who[a] == a;
    }
  }

  lemma Starts(h: Heap, b: int)
    requires h.Sizes() && h.Tiled()
    ensures h.Block(b) ==> b in h.who && h.who[b] == b
  {}

  /** The units of a block are the addresses it spans. */
  lemma Span(h: Heap, b: int, x: int)
    requires h.Sizes() && h.Tiled() && h.Block(b)
    ensures x in h.UnitsOf(b) <==> b <= x < b + h.size[b]
  {}

  // ---- kfree ----

  /** The block before which kfree's search stops. */
  ghost predicate Before(h: Heap, p: int, bp: int) {
    p in h.free && p < bp && forall g :: g in h.free && g < bp ==> g <= p
  }

  /** `who` after the units of block b are given to block c. */
  function Give(who: map<int, int>, b: int, c: int): map<int, int> {
    map x | x in who :: if who[x] == b then c else who[x]
  }

  /** kfree when bp touches neither neighbour: it is linked in between. */
  function Linked(h: Heap, p: int, bp: int): Heap
    requires p in h.ptr
  {
    h.(ptr := h.ptr[bp := h.ptr[p]][p := bp], freep := p, free := h.free + {bp}, live := h.live - {bp})
  }

  /** kfree's first merge: the block after bp becomes part of bp, which is still live. */
  function Absorb(h: Heap, p: int, bp: int, n: int): Heap
    requires n in h.size && bp in h.size && n in h.ptr && p in h.ptr
  {
    h.(size := h.size[bp := h.size[bp] + h.size[n]], live := h.live[bp := h.size[bp] + h.size[n]],
       free := h.free - {n}, ptr := h.ptr[bp := h.ptr[n]][p := h.ptr[n]], freep := p, who := Give(h.who, n, bp))
  }

  /** kfree's second merge: bp becomes part of p. */
  function Extend(h: Heap, p: int, bp: int): Heap
    requires p in h.size && bp in h.size
  {
    h.(size := h.size[p := h.size[p] + h.size[bp]], live := h.live - {bp}, freep := p, who := Give(h.who, bp, p))
  }

  lemma AbsorbOk(h: Heap, p: int, bp: int, n: int)
    requires h.Ok() && bp in h.live && Before(h, p, bp)
    requires p in h.ptr && n == h.ptr[p] && bp in h.size && bp + h.size[bp] == n
    ensures n != h.base && n in h.size && n in h.ptr && n in h.free
    ensures Absorb(h, p, bp, n).Ok() && Before(Absorb(h, p, bp, n), p, bp)
  {
    hide IsRing, Gaps, Heap.Tiled;
    Neighbours(h, p, bp);
    RingMembers(h.base, h.free, h.ptr, p);
    RingMembers(h.base, h.free, h.ptr, n);
    RingRemove(h.base, h.free, h.ptr, p);
    RingOther(h.base, h.free - {n}, h.ptr[p := h.ptr[n]], bp, h.ptr[n]);
    assert h.ptr[p := h.ptr[n]][bp := h.ptr[n]] == h.ptr[bp := h.ptr[n]][p := h.ptr[n]];
    AbsorbSizes(h, p, bp, n);
    AbsorbTiled(h, p, bp, n);
    GapsLess(h.free, h.size, n, bp, h.size[bp] + h.size[n]);
  }

  lemma RingMembers(base: int, free: set<int>, ptr: map<int, int>, f: int)
    requires IsRing(base, free, ptr) && f in free
    ensures f in ptr && ptr[f] in free && ptr[f] in ptr && base in free && base <= f
    ensures ptr[f] == base || ptr[f] > f
    ensures forall g :: g in free && g > f ==> ptr[f] > f && g >= ptr[f]
  {}

  lemma RingOther(base: int, free: set<int>, ptr: map<int, int>, b: int, v: int)
    requires IsRing(base, free, ptr) && b !in free
    ensures IsRing(base, free, ptr[b := v])
  {}

  lemma GapsLess(free: set<int>, size: map<int, int>, n: int, b: int, v: int)
    requires Gaps(free, size) && b !in free
    ensures Gaps(free - {n}, size[b := v])
  {}

  lemma AbsorbSizes(h: Heap, p: int, bp: int, n: int)
    requires h.Sizes() && bp in h.live && n in h.free && n != h.base && n in h.ptr && p in h.ptr
    requires bp in h.size && n in h.size && bp + h.size[bp] == n
    ensures Absorb(h, p, bp, n).Sizes()
  {
    assert h.Block(n) && h.Block(bp);
  }

  lemma AbsorbTiled(h: Heap, p: int, bp: int, n: int)
    requires h.Sizes() && h.Tiled() && bp in h.live && n in h.free && n != h.base && n in h.ptr && p in h.ptr
    requires bp in h.size && n in h.size && bp + h.size[bp] == n
    ensures Absorb(h, p, bp, n).Tiled()
  {
    var k := Absorb(h, p, bp, n);
    assert h.Block(n) && h.Block(bp);
    forall x | x in k.who
      ensures k.Block(k.who[x]) && k.who[x] in k.size && k.who[x] <= x < k.who[x] + k.size[k.who[x]]
    {
      assert h.Block(h.who[x]);
    }
    forall b, x | k.Block(b) && b in k.size && b <= x < b + k.size[b]
      ensures x in k.who && k.who[x] == b
    {
      assert h.Block(b);
    }
  }

  /** Where bp lies between its neighbours on the list. */
  lemma Neighbours(h: Heap, p: int, bp: int)
    requires h.Ok() && bp in h.live && Before(h, p, bp)
    ensures p in h.ptr && p in h.size && bp in h.size && h.size[bp] > 0 && bp > h.base && bp !in h.free
    ensures h.ptr[p] in h.free && (h.ptr[p] > bp || h.ptr[p] == h.base)
    ensures p + h.size[p] <= bp && (h.ptr[p] > bp ==> bp + h.size[bp] <= h.ptr[p])
    ensures forall g :: g in h.free && g > p ==> g > bp && h.ptr[p] > bp && g >= h.ptr[p]
  {
    var n := h.ptr[p];
    assert h.Block(bp);
    RingMembers(h.base, h.free, h.ptr, p);
    if p != h.base { Disjoint(h, p, bp); }
    if n != h.base { Disjoint(h, n, bp); }
  }

  lemma LinkedOk(h: Heap, p: int, bp: int)
    requires h.Ok() && bp in h.live && Before(h, p, bp)
    requires p in h.ptr && p in h.size && bp in h.size
    requires bp + h.size[bp] != h.ptr[p] && p + h.size[p] != bp
    ensures Linked(h, p, bp).Ok()
  {
    hide IsRing, Gaps;
    Neighbours(h, p, bp);
    RingInsert(h.base, h.free, h.ptr, p, bp);
    GapsMore(h.free, h.size, p, bp);
    var k := Linked(h, p, bp);
    assert forall b :: k.Block(b) <==> h.Block(b);
  }

  lemma GapsMore(free: set<int>, size: map<int, int>, p: int, b: int)
    requires Gaps(free, size) && p in free && p in size && b in size && p < b && p + size[p] < b
    requires forall g :: g in free && g < b ==> g <= p
    requires forall g :: g in free && g > p ==> b + size[b] < g
    ensures Gaps(free + {b}, size)
  {
    forall f | f in free && f < b && f in size ensures f + size[f] < b {
      if f != p { assert f + size[f] < p; }
    }
  }

  lemma ExtendOk(h: Heap, p: int, bp: int)
    requires h.Ok() && bp in h.live && Before(h, p, bp)
    requires p in h.ptr && p in h.size && bp in h.size
    requires bp + h.size[bp] != h.ptr[p] && p + h.size[p] == bp
    ensures p != h.base && Extend(h, p, bp).Ok()
  {
    hide IsRing, Gaps, Heap.Tiled;
    Neighbours(h, p, bp);
    ExtendTiled(h, p, bp);
    GapsGrow(h.free, h.size, p, h.size[p] + h.size[bp]);
  }

  lemma GapsGrow(free: set<int>, size: map<int, int>, p: int, v: int)
    requires Gaps(free, size) && p in free
    requires forall g :: g in free && g > p ==> p + v < g
    ensures Gaps(free, size[p := v])
  {}

  lemma ExtendTiled(h: Heap, p: int, bp: int)
    requires h.Sizes() && h.Tiled() && bp in h.live && p in h.free && p in h.size && bp in h.size
    requires p + h.size[p] == bp && p < bp
    ensures p != h.base && Extend(h, p, bp).Sizes() && Extend(h, p, bp).Tiled()
  {
    ExtendSizes(h, p, bp);
    ExtendWithin(h, p, bp);
    ExtendWhole(h, p, bp);
  }

  lemma ExtendSizes(h: Heap, p: int, bp: int)
    requires h.Sizes() && bp in h.live && p in h.free && p in h.size && bp in h.size
    requires p + h.size[p] == bp && p < bp
    ensures p != h.base && Extend(h, p, bp).Sizes()
    ensures forall b :: Extend(h, p, bp).Block(b) <==> h.Block(b) && b != bp
  {
    assert h.Block(bp) && h.size[bp] > 0;
    assert p != h.base;
    assert h.Block(p);
  }

  lemma ExtendWithin(h: Heap, p: int, bp: int)
    requires h.Sizes() && h.Within() && bp in h.live && p in h.free && p in h.size && bp in h.size
    requires p + h.size[p] == bp && p < bp
    ensures Extend(h, p, bp).Within()
  {
    ExtendSizes(h, p, bp);
    hide Heap.Block, Heap.Sizes;
    assert h.Block(bp) && h.Block(p) by { ExtendBlocks(h, p, bp); }
  }

  lemma ExtendWhole(h: Heap, p: int, bp: int)
    requires h.Sizes() && h.Whole() && bp in h.live && p in h.free && p in h.size && bp in h.size
    requires p + h.size[p] == bp && p < bp
    ensures Extend(h, p, bp).Whole()
  {
    ExtendSizes(h, p, bp);
    ExtendBlocks(h, p, bp);
    hide Heap.Block, Heap.Sizes;
    var k := Extend(h, p, bp);
    forall b, x | k.Block(b) && b in k.size && b <= x < b + k.size[b]
      ensures x in k.who && k.who[x] == b
    {
      if b == p && bp <= x { assert h.who[x] == bp; } else { assert h.Block(b) && h.who[x] == b; }
    }
  }

  lemma ExtendBlocks(h: Heap, p: int, bp: int)
    requires h.Sizes() && bp in h.live && p in h.free && p in h.size && bp in h.size
    requires p + h.size[p] == bp && p < bp
    ensures h.Block(bp) && h.Block(p) && p != bp && h.size[bp] > 0
  {
    assert h.Block(bp);
  }

  /** bp->s.ptr is set before bp is on the list. */
  function Aimed(h: Heap, bp: int, v: int): Heap { h.(ptr := h.ptr[bp := v]) }

  lemma AimedOk(h: Heap, p: int, bp: int, v: int)
    requires h.Ok() && bp in h.live && Before(h, p, bp)
    ensures Aimed(h, bp, v).Ok() && Before(Aimed(h, bp, v), p, bp)
  {
    hide IsRing, Gaps;
    RingOther(h.base, h.free, h.ptr, bp, v);
    var k := Aimed(h, bp, v);
    assert forall b :: k.Block(b) <==> h.Block(b);
  }

  /** Which units the three steps make free. */
  lemma AbsorbUnits(h: Heap, p: int, bp: int, n: int)
    requires n in h.free && bp in h.size && n in h.size && n in h.ptr && p in h.ptr && bp !in h.free
    ensures Absorb(h, p, bp, n).FreeUnits() == h.FreeUnits() - h.UnitsOf(n)
    ensures Absorb(h, p, bp, n).UnitsOf(bp) == h.UnitsOf(bp) + h.UnitsOf(n)
    ensures h.UnitsOf(n) <= h.FreeUnits()
  {}

  lemma LinkedUnits(h: Heap, p: int, bp: int)
    requires p in h.ptr
    ensures Linked(h, p, bp).FreeUnits() == h.FreeUnits() + h.UnitsOf(bp)
  {}

  lemma ExtendUnits(h: Heap, p: int, bp: int)
    requires p in h.size && bp in h.size && p in h.free
    ensures Extend(h, p, bp).FreeUnits() == h.FreeUnits() + h.UnitsOf(bp)
  {}

  /** The two halves of kfree once the search has stopped at p. */
  function JoinNext(h: Heap, p: int, bp: int): Heap
    requires p in h.ptr && bp in h.size
  {
    var n := h.ptr[p];
    if bp + h.size[bp] == n && n in h.size && n in h.ptr then Absorb(h, p, bp, n) else Aimed(h, bp, n)
  }

  function JoinPrev(h: Heap, p: int, bp: int): Heap
    requires p in h.ptr && p in h.size && bp in h.size
  {
    if p + h.size[p] == bp then Extend(h, p, bp) else Linked(h, p, bp)
  }

  lemma AfterBlock(h: Heap, n: int)
    requires h.Ok() && n in h.free && n != h.base && n in h.size && n in h.ptr
    ensures h.size[n] > 0 && n + h.size[n] != h.ptr[n] && h.base < n
  {
    RingMembers(h.base, h.free, h.ptr, n);
    assert h.Block(n);
  }

  lemma JoinNextOk(h: Heap, p: int, bp: int)
    requires h.Ok() && bp in h.live && Before(h, p, bp)
    ensures p in h.ptr && bp in h.size && h.ptr[p] in h.size && h.ptr[p] in h.ptr
    ensures var k := JoinNext(h, p, bp);
            && k.Ok() && Before(k, p, bp) && k.live - {bp} == h.live - {bp} && bp in k.live
            && p in k.ptr && p in k.size && bp in k.size && bp + k.size[bp] != k.ptr[p]
            && k.size[bp] >= h.size[bp] == h.live[bp]
            && k.base == h.base && k.start == h.start && k.brk == h.brk
  {
    hide IsRing, Heap.Tiled, Heap.Block;
    Neighbours(h, p, bp);
    RingMembers(h.base, h.free, h.ptr, p);
    var n := h.ptr[p];
    if bp + h.size[bp] == n {
      AbsorbOk(h, p, bp, n);
      AfterBlock(h, n);
    } else {
      AimedOk(h, p, bp, n);
    }
  }

  lemma JoinNextUnits(h: Heap, p: int, bp: int)
    requires h.Ok() && bp in h.live && Before(h, p, bp)
    requires p in h.ptr && bp in h.size && h.ptr[p] in h.size && h.ptr[p] in h.ptr
    ensures var k := JoinNext(h, p, bp);
            k.FreeUnits() + k.UnitsOf(bp) == h.FreeUnits() + h.UnitsOf(bp)
  {
    var k := JoinNext(h, p, bp);
    var n := h.ptr[p];
    RingMembers(h.base, h.free, h.ptr, p);
    hide IsRing, Gaps, Heap.Tiled, Heap.Sizes, Heap.FreeUnits, Heap.UnitsOf, Absorb;
    LiveNotFree(h, bp);
    if bp + h.size[bp] == n {
      AbsorbUnits(h, p, bp, n);
      Moved(h.FreeUnits(), h.UnitsOf(bp), h.UnitsOf(n));
    } else {
      AimedUnits(h, bp, n);
    }
  }

  lemma LiveNotFree(h: Heap, bp: int)
    requires h.Ok() && bp in h.live
    ensures bp !in h.free
  {}

  lemma AimedUnits(h: Heap, bp: int, v: int)
    ensures Aimed(h, bp, v).FreeUnits() == h.FreeUnits() && Aimed(h, bp, v).UnitsOf(bp) == h.UnitsOf(bp)
  {}

  lemma Moved(f: set<int>, u: set<int>, n: set<int>)
    requires n <= f
    ensures (f - n) + (u + n) == f + u
  {}

  lemma JoinPrevOk(h: Heap, p: int, bp: int)
    requires h.Ok() && bp in h.live && Before(h, p, bp)
    requires p in h.ptr && p in h.size && bp in h.size && bp + h.size[bp] != h.ptr[p]
    ensures var k := JoinPrev(h, p, bp);
            && k.Ok() && k.live == h.live - {bp} && k.freep == p
            && k.FreeUnits() == h.FreeUnits() + h.UnitsOf(bp)
            && bp in k.who && k.who[bp] in k.free && k.who[bp] in k.size && k.size[k.who[bp]] >= h.size[bp]
  {
    hide IsRing, Gaps;
    Starts(h, bp);
    if p + h.size[p] == bp {
      ExtendOk(h, p, bp);
      ExtendUnits(h, p, bp);
    } else {
      LinkedOk(h, p, bp);
      LinkedUnits(h, p, bp);
    }
  }

  lemma FreeBelow(h: Heap, p: int)
    requires h.Sizes() && p in h.free
    ensures h.base <= p <= h.brk || p == h.base
  {
    assert p != h.base ==> h.Block(p);
  }

  // ---- kmalloc ----

  /** The block after prevp leaves the list whole. */
  function TakeWhole(h: Heap, prevp: int, p: int): Heap
    requires p in h.ptr && p in h.size
  {
    h.(ptr := h.ptr[prevp := h.ptr[p]], freep := prevp, free := h.free - {p}, live := h.live[p := h.size[p]])
  }

  /** The last n units of free block p become a block of their own. */
  function TakeTail(h: Heap, prevp: int, p: int, n: int): Heap
    requires p in h.size
  {
    var b := p + h.size[p] - n;
    h.(size := h.size[p := h.size[p] - n][b := n], freep := prevp, live := h.live[b := n],
       who := map x | x in h.who :: if b <= x < b + n then b else h.who[x])
  }

  lemma TakeWholeOk(h: Heap, prevp: int, p: int)
    requires h.Ok() && prevp in h.free && prevp in h.ptr && p == h.ptr[prevp] && p != h.base
    ensures p in h.ptr && p in h.size && p in h.free && prevp != p
    ensures TakeWhole(h, prevp, p).Ok()
    ensures TakeWhole(h, prevp, p).FreeUnits() == h.FreeUnits() - h.UnitsOf(p)
  {
    hide IsRing, Gaps;
    RingMembers(h.base, h.free, h.ptr, prevp);
    RingRemove(h.base, h.free, h.ptr, prevp);
    GapsSubset(h.free, h.free - {p}, h.size);
    var k := TakeWhole(h, prevp, p);
    assert forall b :: k.Block(b) <==> h.Block(b);
  }

  lemma GapsSubset(free: set<int>, less: set<int>, size: map<int, int>)
    requires Gaps(free, size) && less <= free
    ensures Gaps(less, size)
  {}

  lemma TakeTailOk(h: Heap, prevp: int, p: int, n: int)
    requires h.Ok() && prevp in h.free && p in h.free && p != h.base && p in h.size && 0 < n < h.size[p]
    ensures var b := p + h.size[p] - n;
            b !in h.live && b !in h.free && TakeTail(h, prevp, p, n).Ok()
  {
    hide IsRing, Gaps;
    NewInside(h, p, p + h.size[p] - n);
    TakeTailSizes(h, prevp, p, n);
    TakeTailTiled(h, prevp, p, n);
    TakeTailGaps(h.free, h.size, p, n);
  }

  /** A unit strictly inside a block is not where a block starts. */
  lemma NewInside(h: Heap, p: int, b: int)
    requires h.Sizes() && h.Tiled() && p in h.free && p != h.base && p in h.size && p < b < p + h.size[p]
    ensures !h.Block(b) && b != h.base && b in h.who && h.who[b] == p
  {
    assert h.Block(p);
    Starts(h, b);
  }

  lemma TakeTailSizes(h: Heap, prevp: int, p: int, n: int)
    requires h.Sizes() && p in h.free && p != h.base && p in h.size && 0 < n < h.size[p]
    requires !h.Block(p + h.size[p] - n)
    ensures TakeTail(h, prevp, p, n).Sizes()
  {
    var k := TakeTail(h, prevp, p, n);
    var b := p + h.size[p] - n;
    assert h.Block(p);
    forall c | k.Block(c) ensures h.start <= c && c in k.size && k.size[c] > 0 && c + k.size[c] <= h.brk {
      if c != b { assert h.Block(c); }
    }
  }

  lemma TakeTailTiled(h: Heap, prevp: int, p: int, n: int)
    requires h.Sizes() && h.Tiled() && p in h.free && p != h.base && p in h.size && 0 < n < h.size[p]
    requires !h.Block(p + h.size[p] - n)
    ensures TakeTail(h, prevp, p, n).Tiled()
  {
    TakeTailWithin(h, prevp, p, n);
    TakeTailWhole(h, prevp, p, n);
  }

  lemma TakeTailWithin(h: Heap, prevp: int, p: int, n: int)
    requires h.Sizes() && h.Within() && p in h.free && p != h.base && p in h.size && 0 < n < h.size[p]
    requires !h.Block(p + h.size[p] - n)
    ensures TakeTail(h, prevp, p, n).Within()
  {
    var k := TakeTail(h, prevp, p, n);
    forall x | x in k.who
      ensures k.Block(k.who[x]) && k.who[x] in k.size && k.who[x] <= x < k.who[x] + k.size[k.who[x]]
    {
      assert h.Block(h.who[x]);
    }
  }

  lemma TakeTailWhole(h: Heap, prevp: int, p: int, n: int)
    requires h.Sizes() && h.Whole() && p in h.free && p != h.base && p in h.size && 0 < n < h.size[p]
    requires !h.Block(p + h.size[p] - n)
    ensures TakeTail(h, prevp, p, n).Whole()
  {
    var k := TakeTail(h, prevp, p, n);
    var b := p + h.size[p] - n;
    TakeTailBlocks(h, prevp, p, n);
    hide Heap.Block, Heap.Sizes;
    forall c, x | k.Block(c) && c in k.size && c <= x < c + k.size[c]
      ensures x in k.who && k.who[x] == c
    {
      if c == b { assert h.who[x] == p; } else { assert h.Block(c) && h.who[x] == c; }
    }
  }

  lemma TakeTailBlocks(h: Heap, prevp: int, p: int, n: int)
    requires p in h.free && p != h.base && p in h.size && 0 < n < h.size[p]
    ensures h.Block(p)
    ensures forall c :: TakeTail(h, prevp, p, n).Block(c) <==> h.Block(c) || c == p + h.size[p] - n
  {}

  lemma TakeTailGaps(free: set<int>, size: map<int, int>, p: int, n: int)
    requires Gaps(free, size) && p in free && p in size && 0 < n < size[p] && p + size[p] - n !in free
    ensures Gaps(free, size[p := size[p] - n][p + size[p] - n := n])
  {}

  lemma TakeTailUnits(h: Heap, prevp: int, p: int, n: int)
    requires h.Within() && p in h.free && p in h.size && 0 < n < h.size[p]
    requires h.Whole() && p != h.base && p + h.size[p] - n !in h.free && !h.Block(p + h.size[p] - n)
    ensures var k := TakeTail(h, prevp, p, n);
            && k.FreeUnits() == h.FreeUnits() - k.UnitsOf(p + h.size[p] - n)
            && k.UnitsOf(p + h.size[p] - n) <= h.FreeUnits()
  {
    var k := TakeTail(h, prevp, p, n);
    var b := p + h.size[p] - n;
    assert h.Block(p);
    forall x | x in k.UnitsOf(b) ensures x in h.FreeUnits() {
      assert h.Block(h.who[x]);
      assert b <= x < b + n;
      assert h.who[x] == p;
    }
  }

  // ---- morecore ----

  /** The addresses from a on, n of them. */
  function Range(a: int, n: int): (r: set<int>)
    ensures forall x :: x in r <==> a <= x < a + n
    decreases n
  {
    if n <= 0 then {} else Range(a, n - 1) + {a + n - 1}
  }

  /** nu fresh units at the break, as one block that kfree can take. */
  function Grown(h: Heap, nu: int): Heap {
    h.(size := h.size[h.brk := nu], live := h.live[h.brk := nu], brk := h.brk + nu,
       who := map x | x in h.who.Keys + Range(h.brk, nu) :: if x < h.brk && x in h.who then h.who[x] else h.brk)
  }

  lemma GrownOk(h: Heap, nu: int)
    requires h.Ok() && nu > 0
    ensures h.brk !in h.live && h.brk !in h.free
    ensures Grown(h, nu).Ok()
  {
    hide IsRing, Gaps, Heap.Tiled, Heap.Sizes;
    AtBreak(h);
    GrownTiled(h, nu);
    GrownSizes(h, nu);
    GapsOther(h.free, h.size, h.brk, nu);
  }

  lemma GrownSizes(h: Heap, nu: int)
    requires h.Sizes() && !h.Block(h.brk) && h.brk != h.base && nu > 0
    ensures Grown(h, nu).Sizes()
  {
    var k := Grown(h, nu);
    assert forall b :: k.Block(b) <==> h.Block(b) || b == h.brk;
  }

  lemma AtBreak(h: Heap)
    requires h.Sizes() && h.Tiled()
    ensures !h.Block(h.brk) && h.brk != h.base
  {
    Starts(h, h.brk);
  }

  lemma GapsOther(free: set<int>, size: map<int, int>, b: int, v: int)
    requires Gaps(free, size) && b !in free
    ensures Gaps(free, size[b := v])
  {}

  lemma GrownTiled(h: Heap, nu: int)
    requires h.Sizes() && h.Tiled() && !h.Block(h.brk) && h.brk != h.base && nu > 0
    ensures Grown(h, nu).Tiled()
  {
    GrownWithin(h, nu);
    GrownWhole(h, nu);
  }

  lemma GrownWithin(h: Heap, nu: int)
    requires h.Sizes() && h.Within() && !h.Block(h.brk) && h.brk != h.base && nu > 0
    requires forall x :: x in h.who <==> h.start <= x < h.brk
    ensures Grown(h, nu).Within()
  {
    var k := Grown(h, nu);
    forall x | x in k.who
      ensures k.Block(k.who[x]) && k.who[x] in k.size && k.who[x] <= x < k.who[x] + k.size[k.who[x]]
    {
      if x < h.brk { assert h.Block(h.who[x]); }
    }
  }

  lemma GrownWhole(h: Heap, nu: int)
    requires h.Sizes() && h.Whole() && !h.Block(h.brk) && h.brk != h.base && nu > 0
    ensures Grown(h, nu).Whole()
  {
    var k := Grown(h, nu);
    forall b, x | k.Block(b) && b in k.size && b <= x < b + k.size[b]
      ensures x in k.who && k.who[x] == b
    {
      if b != h.brk { assert h.Block(b) && h.who[x] == b; }
    }
  }

  lemma GrownUnits(h: Heap, nu: int)
    requires h.Sizes() && h.Tiled() && nu > 0 && h.brk !in h.free
    ensures Grown(h, nu).FreeUnits() == h.FreeUnits()
  {}

  /** Conservation: the heap is free units and allocated units, nothing twice, nothing lost. */
  lemma Conservation(h: Heap)
    requires h.Ok()
    ensures h.FreeUnits() !! h.LiveUnits()
    ensures h.FreeUnits() + h.LiveUnits() == Range(h.start, h.brk - h.start)
    ensures |h.FreeUnits()| + |h.LiveUnits()| == h.brk - h.start
  {
    hide Heap.FreeUnits, Heap.LiveUnits, Heap.Ring, Heap.Sizes, Heap.Tiled, Heap.Apart, Range;
    HeapSpan(h);
    RangeSize(h.start, h.brk - h.start);
    Partition(h);
    assert |h.FreeUnits() + h.LiveUnits()| == |h.FreeUnits()| + |h.LiveUnits()|;
  }

  lemma HeapSpan(h: Heap)
    requires h.Sizes()
    ensures h.start <= h.brk
  {}

  lemma Partition(h: Heap)
    requires h.Sizes() && h.Tiled()
    ensures h.FreeUnits() !! h.LiveUnits()
    ensures h.FreeUnits() + h.LiveUnits() == Range(h.start, h.brk - h.start)
  {
    hide Range;
    forall x | x in h.FreeUnits() ensures x !in h.LiveUnits() {
      assert h.who[x] in h.free;
      assert h.who[x] !in h.live;
    }
    forall x | h.start <= x < h.brk ensures x in h.FreeUnits() + h.LiveUnits() {
      assert h.Block(h.who[x]);
    }
  }

  lemma {:induction false} RangeSize(a: int, n: int)
    requires n >= 0
    ensures |Range(a, n)| == n
  {
    hide Range;
    var s, t := Range(a, n), Range(a, n - 1);
    if n > 0 {
      RangeSize(a, n - 1);
      assert s == t + {a + n - 1};
      OneMore(s, t, a + n - 1);
    } else {
      assert s == {};
    }
  }

  lemma OneMore(s: set<int>, t: set<int>, x: int)
    requires x !in t && s == t + {x}
    ensures |s| == |t| + 1
  {}
}
