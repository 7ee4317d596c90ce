/** The page allocator of paging.c. Pages are named by their physical address, which P2V and
    V2P shift by a constant; kernelEnd is V2P(kernel_end). */
module Frames {
  import opened Basics

  const PGSIZE := 4096

  predicate Aligned(p: int) { p % PGSIZE == 0 }

  function RoundUp(a: nat): (r: nat)
    ensures Aligned(r) && a <= r < a + PGSIZE
  {
    (a + PGSIZE - 1) / PGSIZE * PGSIZE
  }

  /** The free list from `head` through the first word of each page. */
  ghost predicate Spells(head: int, next: map<int, int>, free: seq<int>) {
    && NoRepeats(free)
    && head == (if free == [] then NIL else free[0])
    && (forall i :: 0 <= i < |free| ==> free[i] in next)
    && (forall i, j :: 0 <= i < j < |free| && j == i + 1 ==> next[free[i]] == free[j])
    && (free != [] ==> next[free[|free| - 1]] == NIL)
  }

  /** A whole page of [start, end). */
  predicate PageIn(p: int, start: int, end: int) { Aligned(p) && start <= p && p + PGSIZE <= end }

  lemma NextPage(p: int, q: int)
    requires Aligned(p) && Aligned(q) && q < p + PGSIZE
    ensures q <= p && (q < p ==> q + PGSIZE <= p)
  {}

  class FrameAllocator {
    var freelist: int
    var next: map<int, int>
    const kernelEnd: nat
    const phystop: nat
    ghost var free: seq<int>

    /** What kfree_page does not panic on. */
    predicate Good(p: int) { Aligned(p) && kernelEnd <= p < phystop }

    ghost predicate Valid()
      reads this
    {
      Spells(freelist, next, free) && forall p :: p in free ==> Good(p)
    }

    constructor (kernelEnd: nat, phystop: nat)
      ensures Valid() && free == [] && this.kernelEnd == kernelEnd && this.phystop == phystop
    {
      freelist, next, free := NIL, map[], [];
      this.kernelEnd, this.phystop := kernelEnd, phystop;
    }

    /** kfree_page, of a page that is not free already; false is its panic. */
    method KfreePage(v: int) returns (ok: bool)
      requires Valid() && v !in free
      modifies this
      ensures Valid() && free == if ok then [v] + old(free) else old(free)
      ensures ok <==> v % 4096 == 0 && kernelEnd <= v < phystop
    {
      if v % PGSIZE != 0 || v < kernelEnd || v >= phystop {
        return false;
      }
      next := next[v := freelist];
      freelist := v;
      ok := true;
      free := [v] + free;
    }

    /** kalloc_page. */
    method KallocPage() returns (r: int)
      requires Valid()
      modifies this
      ensures Valid()
      ensures old(free) == [] ==> r == NIL && free == []
      ensures old(free) != [] ==> free == old(free)[1..] && r == old(free)[0] && r !in free && Good(r)
    {
      r := freelist;
      assert free != [] ==> free[0] in free;
      if r != NIL {
        freelist := next[r];
        ghost var was := free;
        free := free[1..];
        assert forall p :: p in free ==> p in was;
      }
    }

    /** freerange: every whole page of the range goes on the list, in front of what was there. */
    method FreeRange(start: nat, end: nat) returns (ok: bool)
      requires Valid() && forall p :: PageIn(p, start, end) ==> p !in free
      modifies this
      ensures Valid() && (ok <==> forall p :: PageIn(p, start, end) ==> Good(p))
      ensures ok ==> (forall p :: p in free <==> p in old(free) || PageIn(p, start, end))
      ensures |free| >= |old(free)| && free[|free| - |old(free)|..] == old(free)
    {
      hide Spells, PageIn, Aligned, RoundUp;
      FirstPages(start, end);
      var p := RoundUp(start);
      ok := true;
      while p + PGSIZE <= end
        invariant Valid() && Aligned(p) && start <= p
        invariant forall q :: q in free <==> q in old(free) || (PageIn(q, start, end) && q < p)
        invariant forall q :: PageIn(q, start, end) && q < p ==> Good(q)
        invariant |free| >= |old(free)| && free[|free| - |old(free)|..] == old(free)
        decreases end - p
      {
        MorePages(start, end, p);
        ghost var was := free;
        ok := KfreePage(p);
        if !ok {
          return;
        }
        TailKept(was, free, old(free));
        p := p + PGSIZE;
      }
      LastPages(start, end, p);
    }
  }

  lemma FirstPages(start: nat, end: int)
    ensures Aligned(RoundUp(start)) && start <= RoundUp(start)
    ensures forall q :: PageIn(q, start, end) ==> q >= RoundUp(start)
  {}

  /** One page more. */
  lemma MorePages(start: int, end: int, p: int)
    requires Aligned(p) && start <= p && p + PGSIZE <= end
    ensures PageIn(p, start, end) && Aligned(p + PGSIZE)
    ensures forall q :: PageIn(q, start, end) ==> (q < p + PGSIZE <==> q < p || q == p)
  {
    forall q | PageIn(q, start, end) && q < p + PGSIZE ensures q <= p { NextPage(p, q); }
  }

  lemma LastPages(start: int, end: int, p: int)
    requires p + PGSIZE > end
    ensures forall q :: PageIn(q, start, end) ==> q < p
  {}

  lemma TailKept(was: seq<int>, now: seq<int>, tail: seq<int>)
    requires |was| >= |tail| && was[|was| - |tail|..] == tail && |now| == |was| + 1 && now[1..] == was
    ensures now[|now| - |tail|..] == tail
  {
    assert now[|now| - |tail|..] == now[1..][|was| - |tail|..];
  }
}
