/** The run queue of scheduler.c: a singly linked list through proc.next. */
module RunQueue {
  import opened Basics

  const NPROC := 64

  type Proc = p: int | 0 <= p < 64
  type Links = s: seq<int> | |s| == 64 witness seq(64, _ => 0)

  /** head, tail and the next fields spell out q, and every process off it has no successor. */
  ghost predicate Spells(next: Links, head: int, tail: int, q: seq<Proc>) {
    && NoRepeats(q)
    && head == (if q == [] then NIL else q[0])
    && tail == (if q == [] then NIL else q[|q| - 1])
    && (forall i, j :: 0 <= i < j < |q| && j == i + 1 ==> next[q[i]] == q[j])
    && (q != [] ==> next[q[|q| - 1]] == NIL)
    && (forall p: Proc :: p !in q ==> next[p] == NIL)
  }

  /** What enqueuing leaves on the queue: a process that is already there stays where it is. */
  function Append(q: seq<Proc>, p: Proc): seq<Proc> { if p in q then q else q + [p] }

  class Queue {
    var head: int
    var tail: int
    var size: int
    var next: Links
    ghost var q: seq<Proc>

    ghost predicate Valid()
      reads this
    {
      Spells(next, head, tail, q) && size >= |q|
    }

    constructor ()
      ensures Valid() && q == [] && size == 0 && fresh(this)
    {
      head, tail, size, q := NIL, NIL, 0, [];
      next := seq(64, _ => NIL);
    }

    /** enqueue_task. Its assertion that task has no successor holds for a process that is
        off the queue or last on it; in the second case only `size` changes. */
    method Enqueue(task: Proc)
      requires Valid() && next[task] == NIL
      modifies this
      ensures Valid() && q == Append(old(q), task) && size == old(size) + 1
    {
      Successors(next, head, tail, q, task);
      if head == NIL {
        head := task;
      }
      if tail != NIL {
        next := next[tail := task];
      }
      next := next[task := NIL];
      tail := task;
      size := size + 1;
      q := Append(q, task);
    }

    /** dequeue_task: the head, or NIL. */
    method Dequeue() returns (task: int)
      requires Valid()
      modifies this
      ensures Valid()
      ensures old(q) == [] ==> task == NIL && q == [] && size == old(size)
      ensures old(q) != [] ==> task == old(q)[0] && q == old(q)[1..] && size == old(size) - 1
    {
      if head == NIL {
        return NIL;
      }
      task := head;
      head := next[task];
      if head == NIL {
        tail := NIL;
      }
      next := next[task := NIL];
      size := if size - 1 < 0 then 0 else size - 1;
      q := q[1..];
    }
  }

  /** next is null exactly for processes off the queue and for the last one. */
  lemma Successors(next: Links, head: int, tail: int, q: seq<Proc>, p: Proc)
    requires Spells(next, head, tail, q)
    ensures next[p] == NIL <==> p !in q || p == q[|q| - 1]
  {
    if p in q {
      var i :| 0 <= i < |q| && q[i] == p;
      if i + 1 < |q| { assert next[q[i]] == q[i + 1]; }
    }
  }

  // ---- order ----

  datatype Op = Enq(p: Proc) | Deq

  function Step(q: seq<Proc>, op: Op): seq<Proc> {
    match op
    case Enq(p) => Append(q, p)
    case Deq => if q == [] then [] else q[1..]
  }

  /** The processes a run of operations takes off the queue, in order. */
  function Taken(q: seq<Proc>, ops: seq<Op>): seq<Proc>
    decreases ops
  {
    if ops == [] then []
    else (if ops[0].Deq? && q != [] then [q[0]] else []) + Taken(Step(q, ops[0]), ops[1..])
  }

  /** First come, first served: whatever else is enqueued meanwhile, the process at index k
      is the (k + 1)-th to leave. */
  lemma {:induction false} Fifo(q: seq<Proc>, ops: seq<Op>, k: nat)
    requires k < |q| && k < |Taken(q, ops)|
    ensures Taken(q, ops)[k] == q[k]
    decreases ops
  {
    if ops != [] {
      if ops[0].Deq? {
        if k > 0 { Fifo(q[1..], ops[1..], k - 1); }
      } else {
        Fifo(Step(q, ops[0]), ops[1..], k);
      }
    }
  }
}
