/** pipe.c: a ring buffer over two wrapping counters. Each operation is one stretch of code
    under the pipe's lock: a call runs from entry, or from where its sleep returns, to its
    end or its next sleep. */
module Pipe {
  import opened Basics

  const PIPESIZE := 512

  /** What a pipe is for: a bounded queue with two ends, and who sleeps on &nread and &nwrite. */
  datatype Channel = Channel(buf: seq<Byte>, readopen: bool, writeopen: bool, readers: set<int>, writers: set<int>)

  datatype Outcome = Done | Failed | Asleep

  // ---- the queue one stretch at a time ----

  function Room(s: Channel): int { PIPESIZE - |s.buf| }

  /** The part of bytes a writer gets rid of before it returns or sleeps. */
  function Accepted(s: Channel, bytes: seq<Byte>): seq<Byte> {
    if 0 <= Room(s) < |bytes| then bytes[..Room(s)] else bytes
  }

  function WriteOutcome(s: Channel, bytes: seq<Byte>, killed: bool): Outcome {
    if |bytes| <= Room(s) then Done else if !s.readopen || killed then Failed else Asleep
  }

  /** pipe_write, with bytes still to go. Failing skips the wakeup. */
  function Wrote(s: Channel, pid: int, bytes: seq<Byte>, killed: bool): Channel {
    var t := s.(buf := s.buf + Accepted(s, bytes));
    match WriteOutcome(s, bytes, killed)
    case Done => t.(readers := {})
    case Failed => t
    case Asleep => t.(readers := {}, writers := s.writers + {pid})
  }

  /** What pipe_read copies out. */
  function Delivered(s: Channel, n: int, killed: bool): seq<Byte> {
    if n <= 0 || ReadOutcome(s, killed) != Done then [] else if n <= |s.buf| then s.buf[..n] else s.buf
  }

  function ReadOutcome(s: Channel, killed: bool): Outcome {
    if s.buf != [] || !s.writeopen then Done else if killed then Failed else Asleep
  }

  function Took(s: Channel, pid: int, n: int, killed: bool): Channel {
    match ReadOutcome(s, killed)
    case Done => s.(buf := s.buf[|Delivered(s, n, killed)|..], writers := {})
    case Failed => s
    case Asleep => s.(readers := s.readers + {pid})
  }

  function Closed(s: Channel, writable: bool): Channel {
    if writable then s.(writeopen := false, readers := {}) else s.(readopen := false, writers := {})
  }

  // ---- the ring buffer ----

  class PipeBuffer {
    const data: array<Byte>
    var nread: Word
    var nwrite: Word
    var readopen: bool
    var writeopen: bool
    var readers: set<int>
    var writers: set<int>

    ghost predicate Valid()
      reads this
    {
      data.Length == PIPESIZE && Count(nread, nwrite) <= PIPESIZE
    }

    ghost function State(): Channel
      reads this, data
      requires Valid()
    {
      Channel(Contents(data[..], nread, nwrite), readopen, writeopen, readers, writers)
    }

    /** pipe_alloc. */
    constructor ()
      ensures Valid() && fresh(data)
      ensures State() == Channel([], true, true, {}, {})
    {
      data := new Byte[512];
      nread, nwrite := 0, 0;
      readopen, writeopen := true, true;
      readers, writers := {}, {};
    }

    /** pipe_write from its i-th byte; it goes on from `next` when it wakes. */
    method Write(pid: int, addr: seq<Byte>, start: nat, n: int, killed: bool) returns (r: Outcome, next: nat)
      requires Valid() && n <= |addr| && start <= (if n < 0 then 0 else n)
      modifies this, data
      ensures Valid()
      ensures State() == Wrote(old(State()), pid, addr[start..if n < start then start else n], killed)
      ensures r == WriteOutcome(old(State()), addr[start..if n < start then start else n], killed)
      ensures next == start + |Accepted(old(State()), addr[start..if n < start then start else n])|
      ensures var todo, room := (if n < start then 0 else n - start), 512 - |old(State()).buf|;
              && next == start + Min(todo, room)
              && State().buf == old(State()).buf + addr[start..next]
              && (r == Done <==> todo <= room)
              && (r == Failed <==> todo > room && (!readopen || killed))
              && readers == (if r == Failed then old(readers) else {})
              && writers == (if r == Asleep then old(writers) + {pid} else old(writers))
      ensures readopen == old(readopen) && writeopen == old(writeopen)
    {
      hide Contents, Count;
      ghost var was := State();
      ghost var todo := addr[start..if n < start then start else n];
      ContentsSize(data[..], nread, nwrite);
      next := Fill(addr, start, n);
      assert addr[start..next] == todo[..next - start];
      if next < n {
        if !readopen || killed {
          return Failed, next;
        }
        readers := {};
        writers := writers + {pid};
        return Asleep, next;
      }
      assert addr[start..next] == todo;
      readers := {};
      r := Done;
    }

    /** Its loop, up to the end of the bytes or to a full pipe. */
    method Fill(addr: seq<Byte>, start: nat, n: int) returns (i: nat)
      requires Valid() && n <= |addr| && start <= (if n < 0 then 0 else n)
      modifies `nwrite, data
      ensures Valid() && start <= i <= |addr|
      ensures State() == old(State()).(buf := old(State()).buf + addr[start..i])
      ensures i == start + Min(if n < start then 0 else n - start, PIPESIZE - |old(State()).buf|)
    {
      hide Contents, Count;
      i := start;
      ghost var was := State();
      assert was.buf + addr[start..i] == was.buf;
      ContentsSize(data[..], nread, nwrite);
      while i < n
        invariant Valid() && start <= i <= (if n < start then start else n)
        invariant State() == was.(buf := was.buf + addr[start..i])
        invariant |was.buf| + (i - start) <= PIPESIZE
      {
        FullCount(nread, nwrite);
        ContentsSize(data[..], nread, nwrite);
        if nwrite == (nread + PIPESIZE) % U32 {
          break;
        }
        Put(addr[i]);
        assert addr[start..i + 1] == addr[start..i] + [addr[i]];
        AppendNext(was.buf, addr[start..i], addr[i]);
        ContentsSize(data[..], nread, nwrite);
        i := i + 1;
      }
    }

    /** p->data[p->nwrite++ % PIPESIZE] = addr[i] */
    method Put(b: Byte)
      requires Valid() && nwrite != (nread + PIPESIZE) % U32
      modifies `nwrite, data
      ensures Valid() && State() == old(State()).(buf := old(State()).buf + [b])
    {
      hide Contents, Count;
      Pushed(data[..], nread, nwrite, b);
      ghost var d := data[..];
      data[nwrite % PIPESIZE] := b;
      assert data[..] == d[nwrite % PIPESIZE := b];
      nwrite := (nwrite + 1) % U32;
    }

    /** The copying loop of pipe_read. */
    method Drain(addr: array<Byte>, n: int) returns (i: nat)
      requires Valid() && n <= addr.Length && addr != data
      modifies `nread, addr
      ensures Valid() && i == (if n < 0 then 0 else if n <= |old(State()).buf| then n else |old(State()).buf|)
      ensures State() == old(State()).(buf := old(State()).buf[i..])
      ensures addr[..] == old(State()).buf[..i] + old(addr[..])[i..]
    {
      hide Contents, Count;
      i := 0;
      ghost var d := data[..];
      ghost var was := Contents(d, nread, nwrite);
      ContentsSize(d, nread, nwrite);
      while i < n
        invariant Valid() && 0 <= i <= |was| && i <= (if n < 0 then 0 else n)
        invariant data[..] == d
        invariant Count(nread, nwrite) == |was| - i && Contents(d, nread, nwrite) == was[i..]
        invariant forall k :: 0 <= k < i ==> addr[k] == was[k]
        invariant forall k :: i <= k < addr.Length ==> addr[k] == old(addr[k])
      {
        FullCount(nread, nwrite);
        if nread == nwrite {
          break;
        }
        Popped(d, nread, nwrite);
        addr[i] := data[nread % PIPESIZE];
        nread := (nread + 1) % U32;
        i := i + 1;
      }
    }

    /** pipe_read; with Done the bytes are in addr[..count], and count is what it returns. */
    method Read(pid: int, addr: array<Byte>, n: int, killed: bool) returns (r: Outcome, count: nat)
      requires Valid() && n <= addr.Length && addr != data
      modifies this, addr
      ensures Valid()
      ensures State() == Took(old(State()), pid, n, killed)
      ensures r == ReadOutcome(old(State()), killed)
      ensures count == |Delivered(old(State()), n, killed)|
      ensures addr[..] == Delivered(old(State()), n, killed) + old(addr[..])[count..]
      ensures r == Done <==> old(State()).buf != [] || !writeopen
      ensures r == Failed <==> old(State()).buf == [] && writeopen && killed
      ensures count == if r == Done then Min(Max(n, 0), |old(State()).buf|) else 0
      ensures addr[..count] + State().buf == old(State()).buf
      ensures readers == if r == Asleep then old(readers) + {pid} else old(readers)
      ensures writers == if r == Done then {} else old(writers)
      ensures readopen == old(readopen) && writeopen == old(writeopen)
    {
      hide Contents, Count;
      FullCount(nread, nwrite);
      ContentsSize(data[..], nread, nwrite);
      if nread == nwrite && writeopen {
        if killed {
          return Failed, 0;
        }
        readers := readers + {pid};
        return Asleep, 0;
      }
      ghost var was, before := State().buf, addr[..];
      count := Drain(addr, n);
      Parts(was, before, addr[..], count);
      writers := {};
      r := Done;
    }

    /** pipe_close, which frees the page when the other end is closed too. */
    method Close(writable: bool) returns (freed: bool)
      requires Valid()
      modifies this
      ensures Valid() && State() == Closed(old(State()), writable)
      ensures freed <==> !readopen && !writeopen
      ensures State().buf == old(State()).buf
      ensures if writable then !writeopen && readopen == old(readopen) && readers == {} && writers == old(writers)
              else !readopen && writeopen == old(writeopen) && writers == {} && readers == old(readers)
    {
      if writable {
        writeopen := false;
        readers := {};
      } else {
        readopen := false;
        writers := {};
      }
      freed := !readopen && !writeopen;
    }
  }

  lemma Parts(was: seq<Byte>, before: seq<Byte>, after: seq<Byte>, n: nat)
    requires n <= |was| && n <= |before| && after == was[..n] + before[n..]
    ensures after[..n] == was[..n] && was[..n] + was[n..] == was
  {}

  lemma AppendNext(s: seq<Byte>, t: seq<Byte>, b: Byte)
    ensures s + t + [b] == s + (t + [b])
  {}

  /** The difference of the counters, however often they have wrapped. */
  function Count(nread: Word, nwrite: Word): nat { (nwrite - nread) % U32 }

  function Slot(nread: Word, k: nat): (r: nat)
    ensures r < PIPESIZE
  {
    (nread + k) % PIPESIZE
  }

  function Contents(data: seq<Byte>, nread: Word, nwrite: Word): seq<Byte>
    requires |data| == PIPESIZE
  {
    seq(Count(nread, nwrite), k requires 0 <= k => data[Slot(nread, k)])
  }

  /** The two comparisons the code makes. */
  lemma FullCount(nread: Word, nwrite: Word)
    ensures nwrite == (nread + PIPESIZE) % U32 <==> Count(nread, nwrite) == PIPESIZE
    ensures nread == nwrite <==> Count(nread, nwrite) == 0
  {}

  lemma ContentsSize(data: seq<Byte>, nread: Word, nwrite: Word)
    requires |data| == PIPESIZE
    ensures |Contents(data, nread, nwrite)| == Count(nread, nwrite)
  {}

  lemma CountIs(nread: Word, nwrite: Word)
    ensures Count(nread, nwrite) == if nread <= nwrite then nwrite - nread else nwrite - nread + U32
  {}

  /** 512 divides 2^32, so the counters may wrap between two slots. */
  lemma WrapSlot(x: nat)
    ensures (x + U32) % PIPESIZE == x % PIPESIZE
  {}

  lemma NextSlot(nread: Word, k: nat)
    ensures Slot((nread + 1) % U32, k) == Slot(nread, k + 1)
  {
    if nread + 1 == U32 { WrapSlot(k); }
  }

  lemma EndSlot(nread: Word, nwrite: Word)
    ensures Slot(nread, Count(nread, nwrite)) == nwrite % PIPESIZE
  {
    CountIs(nread, nwrite);
    if nread > nwrite { WrapSlot(nwrite); }
  }

  lemma SlotsDiffer(nread: Word, k: nat, n: nat)
    requires k < n < PIPESIZE
    ensures Slot(nread, k) != Slot(nread, n)
  {
    var x, d := nread + k, n - k;
    assert (x + d) % PIPESIZE == x % PIPESIZE + d || (x + d) % PIPESIZE == x % PIPESIZE + d - PIPESIZE;
  }

  lemma CountPushed(nread: Word, nwrite: Word)
    requires Count(nread, nwrite) < PIPESIZE
    ensures Count(nread, (nwrite + 1) % U32) == Count(nread, nwrite) + 1
  {
    CountIs(nread, nwrite);
    CountIs(nread, (nwrite + 1) % U32);
  }

  lemma CountPopped(nread: Word, nwrite: Word)
    requires 0 < Count(nread, nwrite)
    ensures Count((nread + 1) % U32, nwrite) == Count(nread, nwrite) - 1
  {
    CountIs(nread, nwrite);
    CountIs((nread + 1) % U32, nwrite);
  }

  /** Storing at nwrite % 512 appends: no live byte is overwritten. */
  lemma Pushed(data: seq<Byte>, nread: Word, nwrite: Word, b: Byte)
    requires |data| == PIPESIZE && Count(nread, nwrite) <= PIPESIZE && nwrite != (nread + PIPESIZE) % U32
    ensures Count(nread, (nwrite + 1) % U32) == Count(nread, nwrite) + 1 <= PIPESIZE
    ensures Contents(data[nwrite % PIPESIZE := b], nread, (nwrite + 1) % U32) == Contents(data, nread, nwrite) + [b]
  {
    FullCount(nread, nwrite);
    CountPushed(nread, nwrite);
    EndSlot(nread, nwrite);
    hide Count, Slot;
    var n := Count(nread, nwrite);
    forall k | 0 <= k < n ensures Slot(nread, k) != nwrite % PIPESIZE {
      SlotsDiffer(nread, k, n);
    }
  }

  lemma Popped(data: seq<Byte>, nread: Word, nwrite: Word)
    requires |data| == PIPESIZE && 0 < Count(nread, nwrite) <= PIPESIZE
    ensures Count((nread + 1) % U32, nwrite) == Count(nread, nwrite) - 1
    ensures Contents(data, nread, nwrite) == [data[nread % PIPESIZE]] + Contents(data, (nread + 1) % U32, nwrite)
  {
    CountPopped(nread, nwrite);
    assert Slot(nread, 0) == nread % PIPESIZE;
    hide Count, Slot;
    var next := (nread + 1) % U32;
    forall k | 0 <= k < PIPESIZE ensures Slot(next, k) == Slot(nread, k + 1) {
      NextSlot(nread, k);
    }
  }

  // ---- runs ----

  datatype Op =
    | Write(pid: int, bytes: seq<Byte>, killed: bool)
    | Read(pid: int, n: int, killed: bool)
    | Close(writable: bool)
    | Kill(pid: int)           // kill() makes a sleeper runnable

  /** What the files guarantee: only open ends are used, by processes that are awake, and an
      end is closed by its last user. */
  predicate Allowed(s: Channel, op: Op) {
    match op
    case Write(pid, _, _) => s.writeopen && pid !in s.readers && pid !in s.writers
    case Read(pid, _, _) => s.readopen && pid !in s.readers && pid !in s.writers
    case Close(writable) => if writable then s.writeopen && s.writers == {} else s.readopen && s.readers == {}
    case Kill(_) => true
  }

  function Step(s: Channel, op: Op): Channel {
    match op
    case Write(pid, bytes, killed) => Wrote(s, pid, bytes, killed)
    case Read(pid, n, killed) => Took(s, pid, n, killed)
    case Close(writable) => Closed(s, writable)
    case Kill(pid) => s.(readers := s.readers - {pid}, writers := s.writers - {pid})
  }

  function Input(s: Channel, op: Op): seq<Byte> { if op.Write? then Accepted(s, op.bytes) else [] }
  function Output(s: Channel, op: Op): seq<Byte> { if op.Read? then Delivered(s, op.n, op.killed) else [] }

  const FRESH := Channel([], true, true, {}, {})

  ghost predicate Possible(ops: seq<Op>) {
    ops == [] || (Possible(ops[..|ops| - 1]) && Allowed(After(ops[..|ops| - 1]), ops[|ops| - 1]))
  }

  /** The pipe after a run, the bytes that went in, and the bytes that came out. */
  function After(ops: seq<Op>): Channel {
    if ops == [] then FRESH else Step(After(ops[..|ops| - 1]), ops[|ops| - 1])
  }

  function AllIn(ops: seq<Op>): seq<Byte> {
    if ops == [] then [] else AllIn(ops[..|ops| - 1]) + Input(After(ops[..|ops| - 1]), ops[|ops| - 1])
  }

  function AllOut(ops: seq<Op>): seq<Byte> {
    if ops == [] then [] else AllOut(ops[..|ops| - 1]) + Output(After(ops[..|ops| - 1]), ops[|ops| - 1])
  }

  /** First in, first out: at any moment the bytes accepted are the bytes delivered followed
      by the at most 512 bytes in the buffer. */
  lemma {:induction false} Fifo(ops: seq<Op>)
    ensures AllIn(ops) == AllOut(ops) + After(ops).buf
    ensures |After(ops).buf| <= PIPESIZE
  {
    if ops != [] {
      hide Step, Input, Output;
      var was, op := ops[..|ops| - 1], ops[|ops| - 1];
      Fifo(was);
      StepFifo(After(was), op);
      Regroup(AllOut(was), After(was).buf, Input(After(was), op), Output(After(was), op), After(ops).buf);
    }
  }

  lemma Regroup(s: seq<Byte>, a: seq<Byte>, b: seq<Byte>, c: seq<Byte>, d: seq<Byte>)
    requires a + b == c + d
    ensures (s + a) + b == (s + c) + d
  {
    assert (s + a) + b == s + (a + b);
    assert (s + c) + d == s + (c + d);
  }

  lemma StepFifo(s: Channel, op: Op)
    requires |s.buf| <= PIPESIZE
    ensures s.buf + Input(s, op) == Output(s, op) + Step(s, op).buf
    ensures |Step(s, op).buf| <= PIPESIZE
  {
    if op.Read? {
      var d := Delivered(s, op.n, op.killed);
      assert s.buf == d + s.buf[|d|..];
    }
  }

  /** A read of n > 0 bytes returns 0 only at the end of the stream: the write end is closed
      and every byte ever accepted has been delivered. */
  lemma ZeroIsEof(ops: seq<Op>, pid: int, n: int, killed: bool)
    requires n > 0 && ReadOutcome(After(ops), killed) == Done
    ensures Delivered(After(ops), n, killed) == [] <==> !After(ops).writeopen && AllOut(ops) == AllIn(ops)
  {
    Fifo(ops);
    if AllOut(ops) == AllIn(ops) { assert |After(ops).buf| == 0; }
  }

  /** Who may be asleep while the lock is free. */
  predicate ReadersWait(s: Channel) { s.readers != {} ==> s.buf == [] && s.writeopen && s.readopen }
  predicate WritersWait(s: Channel) { s.writers != {} ==> |s.buf| == PIPESIZE && s.writeopen && s.readopen }

  /** A writer that gives up after filling the pipe, with readers asleep. */
  predicate LeavesReaders(s: Channel, op: Op) {
    op.Write? && op.killed && s.readers != {} && |op.bytes| > PIPESIZE
  }

  /** Sleeping readers stay justified exactly unless a killed writer with more than 512 bytes
      to go finds some asleep. */
  lemma ReadersWaitStep(s: Channel, op: Op)
    requires |s.buf| <= PIPESIZE && Allowed(s, op) && ReadersWait(s)
    ensures ReadersWait(Step(s, op)) <==> !LeavesReaders(s, op)
  {
    if op.Write? && WriteOutcome(s, op.bytes, op.killed) == Failed {
      assert s.readers != {} ==> |Step(s, op).buf| == PIPESIZE;
    }
  }

  ghost predicate Clean(ops: seq<Op>) {
    ops == [] || (Clean(ops[..|ops| - 1]) && !LeavesReaders(After(ops[..|ops| - 1]), ops[|ops| - 1]))
  }

  /** In a run without such a writer, a reader sleeps only on an empty pipe that can still be
      written. */
  lemma {:induction false} ReadersAsleep(ops: seq<Op>)
    requires Possible(ops) && Clean(ops)
    ensures ReadersWait(After(ops))
  {
    if ops != [] {
      var was := ops[..|ops| - 1];
      ReadersAsleep(was);
      Fifo(was);
      ReadersWaitStep(After(was), ops[|ops| - 1]);
    }
  }

  /** In every run, a writer sleeps only on a full pipe that can still be read. */
  lemma {:induction false} WritersAsleep(ops: seq<Op>)
    requires Possible(ops)
    ensures WritersWait(After(ops))
  {
    if ops != [] {
      var was, op := ops[..|ops| - 1], ops[|ops| - 1];
      WritersAsleep(was);
      Fifo(was);
      if op.Write? { assert |After(ops).buf| >= |After(was).buf|; }
    }
  }

  function Zeros(n: nat): (r: seq<Byte>)
    ensures |r| == n
  {
    seq(n, _ => 0)
  }

  /** Process 1 reads and sleeps; process 2, killed, writes 513 bytes and fails: process 1 is
      left asleep in front of a full pipe. */
  lemma KilledWriterLeavesReader()
    ensures var ops := [Op.Read(1, 1, false), Op.Write(2, Zeros(513), true)];
            Possible(ops) && 1 in After(ops).readers && |After(ops).buf| == PIPESIZE
  {
    var first := [Op.Read(1, 1, false)];
    var ops := first + [Op.Write(2, Zeros(513), true)];
    assert first[..0] == [] && ops[..1] == first;
    assert After(first) == FRESH.(readers := {1});
    assert Possible(first) && Possible(ops);
    assert ops == [Op.Read(1, 1, false), Op.Write(2, Zeros(513), true)];
  }
}
