/** scheduler.c and the process-state changes of proc.c. Each method is what happens between
    taking ptable.lock and giving it up; switch_context hands the lock over. */
module Scheduler {
  import opened Basics
  import opened RunQueue

  datatype PState = UNUSED | EMBRYO | SLEEPING | RUNNABLE | RUNNING | ZOMBIE

  /** What a process sleeps on: wait() uses the process itself. */
  datatype Chan = Nothing | OfProc(p: Proc) | Addr(a: int)

  type Cpu = c: int | 0 <= c < 8
  type Cpus = s: seq<int> | |s| == 8 witness seq(8, _ => -1)

  datatype ProcRec = ProcRec(state: PState, pid: int, chan: Chan, parent: int, killed: bool)
  type Procs = s: seq<ProcRec> | |s| == 64 witness seq(64, _ => ProcRec(UNUSED, 0, Nothing, -1, false))

  /** The queue holds exactly the RUNNABLE processes. */
  ghost predicate QueueIsRunnable(procs: Procs, q: seq<Proc>) {
    forall p: Proc :: procs[p].state == RUNNABLE <==> p in q
  }

  ghost predicate OnCpu(cpu: Cpus, p: int) { exists c: Cpu :: cpu[c] == p }

  /** A process is RUNNING exactly when one cpu, and no more than one, runs it. */
  ghost predicate CpusAgree(procs: Procs, cpu: Cpus) {
    && (forall c: Cpu :: cpu[c] == NIL || (0 <= cpu[c] < NPROC && procs[cpu[c]].state == RUNNING))
    && (forall p: Proc :: procs[p].state == RUNNING ==> OnCpu(cpu, p))
    && (forall c: Cpu, d: Cpu :: c != d && cpu[c] != NIL ==> cpu[c] != cpu[d])
  }

  /** Nobody sleeps in wait() while a child is waiting to be collected. */
  ghost predicate NoMissedChild(procs: Procs) {
    forall p: Proc, z: Proc :: procs[p].state == SLEEPING && procs[p].chan == OfProc(p) && procs[z].parent == p ==>
                                 procs[z].state != ZOMBIE
  }

  predicate InUse(s: PState) { s != UNUSED && s != EMBRYO }

  /** Every process but init has a parent, another slot of the table, from fork on. */
  ghost predicate Parented(procs: Procs, init: Proc) {
    forall p: Proc :: p != init && InUse(procs[p].state) ==> 0 <= procs[p].parent < NPROC && procs[p].parent != p
  }

  predicate Wakes(r: ProcRec, chan: Chan) { r.state == SLEEPING && r.chan == chan }

  /** wakeup_locked on the first n slots of the table. */
  function WokenProcs(procs: Procs, chan: Chan, n: nat): (r: Procs)
    ensures forall p: Proc :: r[p] == if p < n && Wakes(procs[p], chan) then procs[p].(state := RUNNABLE) else procs[p]
  {
    seq(64, p requires 0 <= p < 64 => if p < n && Wakes(procs[p], chan) then procs[p].(state := RUNNABLE) else procs[p])
  }

  function WokenQueue(procs: Procs, chan: Chan, n: nat, q: seq<Proc>): seq<Proc>
    requires n <= NPROC
  {
    if n == 0 then q
    else
      var r := WokenQueue(procs, chan, n - 1, q);
      if Wakes(procs[n - 1], chan) then Append(r, n - 1) else r
  }

  lemma {:induction false} WokenAgrees(procs: Procs, chan: Chan, n: nat, q: seq<Proc>)
    requires n <= NPROC && QueueIsRunnable(procs, q)
    ensures QueueIsRunnable(WokenProcs(procs, chan, n), WokenQueue(procs, chan, n, q))
  {
    if n > 0 {
      WokenAgrees(procs, chan, n - 1, q);
      var r := WokenQueue(procs, chan, n - 1, q);
      forall p: Proc ensures WokenProcs(procs, chan, n)[p].state == RUNNABLE <==> p in WokenQueue(procs, chan, n, q) {
        assert WokenProcs(procs, chan, n - 1)[p].state == RUNNABLE <==> p in r;
      }
    }
  }

  /** The woken go to the end of the queue in the order of the table. */
  lemma {:induction false} WokenInOrder(procs: Procs, chan: Chan, n: nat, q: seq<Proc>)
    requires n <= NPROC && QueueIsRunnable(procs, q)
    ensures var r := WokenQueue(procs, chan, n, q);
            && q <= r
            && (forall i :: |q| <= i < |r| ==> r[i] < n && procs[r[i]].state == SLEEPING && procs[r[i]].chan == chan)
            && (forall i, j :: |q| <= i < j < |r| ==> r[i] < r[j])
  {
    if n > 0 {
      WokenInOrder(procs, chan, n - 1, q);
      if Wakes(procs[n - 1], chan) { assert procs[n - 1].state != RUNNABLE; }
    }
  }

  lemma WokenCpus(procs: Procs, cpu: Cpus, chan: Chan, n: nat)
    requires CpusAgree(procs, cpu)
    ensures CpusAgree(WokenProcs(procs, chan, n), cpu)
  {}

  lemma WokenChildren(procs: Procs, chan: Chan, n: nat)
    requires NoMissedChild(procs)
    ensures NoMissedChild(WokenProcs(procs, chan, n))
  {}

  lemma WokenParented(procs: Procs, chan: Chan, n: nat, init: Proc)
    requires Parented(procs, init)
    ensures Parented(WokenProcs(procs, chan, n), init)
  {}

  class Ptable {
    var procs: Procs
    var cpu: Cpus
    var nextpid: int
    const runnable: Queue
    const initproc: Proc

    ghost predicate Consistent()
      reads this, runnable
    {
      runnable.Valid() && QueueIsRunnable(procs, runnable.q) && CpusAgree(procs, cpu)
    }

    /** What holds whenever ptable.lock is released. */
    ghost predicate Valid()
      reads this, runnable
    {
      Consistent() && NoMissedChild(procs) && Parented(procs, initproc)
    }

    constructor (initproc: Proc)
      ensures Valid() && fresh(this) && fresh(runnable)
      ensures forall p: Proc :: procs[p].state == UNUSED
    {
      procs := seq(64, _ => ProcRec(UNUSED, 0, Nothing, NIL, false));
      cpu := seq(8, _ => NIL);
      nextpid := 1;
      this.initproc := initproc;
      runnable := new Queue();
    }

    /** One turn of scheduler(): the head of the queue starts to run on c. */
    method Pick(c: Cpu) returns (p: int)
      requires Valid() && cpu[c] == NIL
      modifies this, runnable
      ensures Valid()
      ensures old(runnable.q) == [] ==> p == NIL && procs == old(procs) && cpu == old(cpu) && runnable.q == []
      ensures old(runnable.q) != [] ==>
        (p == old(runnable.q)[0] && runnable.q == old(runnable.q)[1..] && cpu == old(cpu)[c := p]
         && procs == old(procs)[p := old(procs)[p].(state := RUNNING)])
    {
      p := runnable.Dequeue();
      if p != NIL {
        cpu := cpu[c := p];
        procs := procs[p := procs[p].(state := RUNNING)];
        Picked(old(procs), old(cpu), c, p, old(runnable.q));
      }
    }

    /** Back in scheduler() after the process on c has left RUNNING: enqueue it again if it
        is RUNNABLE, and the cpu is idle. */
    method Leave(c: Cpu, ghost q0: seq<Proc>)
      requires runnable.Valid() && 0 <= cpu[c] < NPROC && procs[cpu[c]].state != RUNNING
      requires procs[cpu[c]].state == RUNNABLE ==> runnable.q == q0 + [cpu[c]]
      modifies this`cpu, runnable
      ensures runnable.Valid() && runnable.q == old(runnable.q) && cpu == old(cpu)[c := NIL]
      ensures runnable.size == old(runnable.size) + if procs[old(cpu)[c]].state == RUNNABLE then 1 else 0
    {
      var p := cpu[c];
      if procs[p].state == RUNNABLE {
        Successors(runnable.next, runnable.head, runnable.tail, runnable.q, p);
        runnable.Enqueue(p);
      }
      cpu := cpu[c := NIL];
    }

    /** yield: the process goes to the end of the queue, once, though it is enqueued by both
        yield and scheduler and `size` counts it twice. */
    method Yield(c: Cpu)
      requires Valid() && cpu[c] != NIL
      modifies this, runnable
      ensures Valid()
      ensures runnable.q == old(runnable.q) + [old(cpu)[c]]
      ensures procs == old(procs)[old(cpu)[c] := old(procs)[old(cpu)[c]].(state := RUNNABLE)]
      ensures cpu == old(cpu)[c := NIL]
      ensures runnable.size == old(runnable.size) + 2 && runnable.size >= |runnable.q|
    {
      var p := cpu[c];
      procs := procs[p := procs[p].(state := RUNNABLE)];
      runnable.Enqueue(p);
      Leave(c, old(runnable.q));
      Left(old(procs), old(cpu), c, procs[p]);
    }

    /** sleep, once ptable.lock is held: the caller must be the process running on c. */
    method SleepOn(c: Cpu, chan: Chan)
      requires Valid() && cpu[c] != NIL
      requires chan == OfProc(cpu[c]) ==> forall z: Proc :: procs[z].parent == cpu[c] ==> procs[z].state != ZOMBIE
      modifies this, runnable
      ensures Valid() && runnable.q == old(runnable.q) && cpu == old(cpu)[c := NIL]
      ensures procs == old(procs)[old(cpu)[c] := old(procs)[old(cpu)[c]].(chan := chan, state := SLEEPING)]
    {
      var p := cpu[c];
      procs := procs[p := procs[p].(chan := chan)];
      procs := procs[p := procs[p].(state := SLEEPING)];
      assert procs == old(procs)[p := procs[p]];
      Leave(c, []);
      Left(old(procs), old(cpu), c, procs[p]);
    }

    /** wakeup_locked */
    method WakeupLocked(chan: Chan)
      requires Consistent()
      modifies this`procs, runnable
      ensures Consistent() && (old(NoMissedChild(procs)) ==> NoMissedChild(procs))
      ensures old(Parented(procs, initproc)) ==> Parented(procs, initproc)
      ensures procs == WokenProcs(old(procs), chan, NPROC)
      ensures runnable.q == WokenQueue(old(procs), chan, NPROC, old(runnable.q))
      ensures forall p: Proc ::
                procs[p] == if old(procs)[p].state == SLEEPING && old(procs)[p].chan == chan
                            then old(procs)[p].(state := RUNNABLE) else old(procs)[p]
    {
      hide CpusAgree, NoMissedChild, Parented;
      var i := 0;
      while i < NPROC
        invariant 0 <= i <= NPROC && runnable.Valid()
        invariant procs == WokenProcs(old(procs), chan, i)
        invariant runnable.q == WokenQueue(old(procs), chan, i, old(runnable.q))
      {
        WokenAgrees(old(procs), chan, i, old(runnable.q));
        if procs[i].state == SLEEPING && procs[i].chan == chan {
          procs := procs[i := procs[i].(state := RUNNABLE)];
          runnable.Enqueue(i);
        }
        i := i + 1;
      }
      WokenAgrees(old(procs), chan, NPROC, old(runnable.q));
      WokenCpus(old(procs), cpu, chan, NPROC);
      if NoMissedChild(old(procs)) { WokenChildren(old(procs), chan, NPROC); }
      if Parented(old(procs), initproc) { WokenParented(old(procs), chan, NPROC, initproc); }
    }

    /** kill: a sleeping process is woken, whatever it sleeps on. */
    method Kill(pid: int) returns (r: int)
      requires Valid()
      modifies this`procs, runnable
      ensures Valid()
      ensures r == -1 <==> forall p: Proc :: old(procs)[p].pid != pid
      ensures r == -1 ==> procs == old(procs) && runnable.q == old(runnable.q)
      ensures r != -1 ==> r == 0 && exists p: Proc :: (
        && old(procs)[p].pid == pid && (forall s: Proc :: s < p ==> old(procs)[s].pid != pid)
        && procs == old(procs)[p := procs[p]]
        && procs[p] == old(procs)[p].(killed := true, state := procs[p].state)
        && procs[p].state == (if old(procs)[p].state == SLEEPING then RUNNABLE else old(procs)[p].state)
        && runnable.q == (if old(procs)[p].state == SLEEPING then old(runnable.q) + [p] else old(runnable.q)))
    {
      hide QueueIsRunnable, CpusAgree, NoMissedChild, NoRepeats, Spells;
      var p := 0;
      while p < NPROC
        invariant 0 <= p <= NPROC && forall s: Proc :: s < p ==> procs[s].pid != pid
      {
        if procs[p].pid == pid {
          KilledOk(procs, cpu, p);
          KilledQueue(procs, runnable.q, p);
          procs := procs[p := procs[p].(killed := true)];
          if procs[p].state == SLEEPING {
            procs := procs[p := procs[p].(state := RUNNABLE)];
            Successors(runnable.next, runnable.head, runnable.tail, runnable.q, p);
            runnable.Enqueue(p);
          }
          assert procs == old(procs)[p := Killed(old(procs)[p])];
          return 0;
        }
        p := p + 1;
      }
      return -1;
    }

    /** alloc_proc: the first UNUSED slot becomes an EMBRYO with a fresh pid. */
    method AllocProc() returns (p: int)
      requires Valid()
      modifies this`procs, this`nextpid
      ensures Valid()
      ensures p == NIL <==> forall s: Proc :: old(procs)[s].state != UNUSED
      ensures p == NIL ==> procs == old(procs) && nextpid == old(nextpid)
      ensures p != NIL ==> 0 <= p < NPROC && old(procs)[p].state == UNUSED && nextpid == old(nextpid) + 1
      ensures p != NIL ==> procs == old(procs)[p := old(procs)[p].(state := EMBRYO, pid := old(nextpid))]
      ensures p != NIL ==> forall s: Proc :: s < p ==> old(procs)[s].state != UNUSED
    {
      p := 0;
      while p < NPROC
        invariant 0 <= p <= NPROC && forall s: Proc :: s < p ==> procs[s].state != UNUSED
      {
        if procs[p].state == UNUSED {
          procs := procs[p := procs[p].(state := EMBRYO, pid := nextpid)];
          nextpid := nextpid + 1;
          OneRecord(old(procs), cpu, p, procs[p]);
          return;
        }
        p := p + 1;
      }
      return NIL;
    }

    /** The end of user_init: the first process, which has no parent, becomes RUNNABLE. */
    method InitDone()
      requires Valid() && procs[initproc].state == EMBRYO
      modifies this`procs, runnable
      ensures Valid() && runnable.q == old(runnable.q) + [initproc]
      ensures procs == old(procs)[initproc := old(procs)[initproc].(state := RUNNABLE)]
    {
      procs := procs[initproc := procs[initproc].(state := RUNNABLE)];
      runnable.Enqueue(initproc);
      OneRecord(old(procs), cpu, initproc, procs[initproc]);
    }

    /** The end of fork, called by the process on c: the child, complete, becomes RUNNABLE. */
    method ForkDone(np: Proc, c: Cpu)
      requires Valid() && procs[np].state == EMBRYO && cpu[c] != NIL
      modifies this`procs, runnable
      ensures Valid() && runnable.q == old(runnable.q) + [np]
      ensures procs == old(procs)[np := old(procs)[np].(parent := cpu[c], state := RUNNABLE)]
    {
      RunningNow(procs, cpu, c);
      procs := procs[np := procs[np].(parent := cpu[c])];
      procs := procs[np := procs[np].(state := RUNNABLE)];
      runnable.Enqueue(np);
      assert procs == old(procs)[np := procs[np]];
      OneRecord(old(procs), cpu, np, procs[np]);
    }

    /** exit, once ptable.lock is held, up to the scheduler giving it up. Woken are exactly the
        parent waiting for its children and then, if init inherits a dead child, init. */
    method Exit(c: Cpu)
      requires Valid() && cpu[c] != NIL && cpu[c] != initproc
      modifies this, runnable
      ensures Valid() && cpu == old(cpu)[c := NIL]
      ensures procs[old(cpu)[c]] == old(procs)[old(cpu)[c]].(state := ZOMBIE, parent := procs[old(cpu)[c]].parent)
      ensures forall z: Proc ::
                procs[z].parent == if old(procs)[z].parent == old(cpu)[c] then initproc else old(procs)[z].parent
      ensures forall z: Proc :: z != old(cpu)[c] ==> procs[z] == AfterExit(old(procs), old(cpu)[c], initproc, z)
      ensures runnable.q == QueueAfterExit(old(procs), old(cpu)[c], initproc, old(runnable.q))
      ensures old(runnable.q) <= runnable.q
      ensures forall z: Proc :: z != old(cpu)[c] ==>
                procs[z].state == (if old(procs)[z].state == SLEEPING && old(procs)[z].chan.OfProc? &&
                                      (old(procs)[z].chan.p == old(procs)[old(cpu)[c]].parent ||
                                       (old(procs)[z].chan.p == initproc && Bereaved(old(procs), old(cpu)[c])))
                                   then RUNNABLE else old(procs)[z].state)
    {
      hide QueueIsRunnable, CpusAgree, NoMissedChild, NoRepeats, Spells, QueueAfterExit, DeadChild, Parented, AfterExit;
      var p := cpu[c];
      RunningNow(procs, cpu, c);
      ParentThere(procs, initproc, p);
      QueueExtends(procs, p, initproc, runnable.q);
      forall z: Proc { AfterExitIs(procs, p, initproc, z); }
      LeaveFamily(p);
      ghost var before := procs;
      Zombie(before, runnable.q, p);
      procs := procs[p := procs[p].(state := ZOMBIE)];
      ParentedKept(before, initproc, p, procs[p]);
      Leave(c, []);
      Left(before, old(cpu), c, procs[p]);
    }

    /** What exit does for the parent and the children of p. */
    method LeaveFamily(p: Proc)
      requires Valid() && 0 <= procs[p].parent < NPROC
      modifies this`procs, runnable
      ensures Valid() && runnable.q == QueueAfterExit(old(procs), p, initproc, old(runnable.q))
      ensures forall s: Proc :: procs[s] == AfterExit(old(procs), p, initproc, s)
    {
      hide QueueIsRunnable, CpusAgree, NoMissedChild, NoRepeats, Spells, WokenQueue, QueueInherited, Parented;
      ghost var parent := procs[p].parent;
      WakeupLocked(OfProc(procs[p].parent));
      ghost var r0, q1 := procs, runnable.q;
      QueueBegins(r0, p, initproc, q1);
      var z := 0;
      while z < NPROC
        invariant 0 <= z <= NPROC && Valid()
        invariant runnable.q == QueueInherited(r0, p, initproc, z, q1)
        invariant forall s: Proc :: procs[s] == Inherited(r0, p, initproc, z, s)
      {
        if procs[z].parent == p {
          GiveToInit(p, z, r0, q1);
        } else {
          QueueStays(r0, p, initproc, z, q1);
        }
        z := z + 1;
      }
      forall s: Proc ensures Inherited(r0, p, initproc, NPROC, s) == AfterExit(old(procs), p, initproc, s) {
        DeadChildren(old(procs), OfProc(parent), p);
      }
    }

    /** One abandoned child in exit's loop. */
    method GiveToInit(p: Proc, z: Proc, ghost r0: Procs, ghost q1: seq<Proc>)
      requires Valid() && procs[z].parent == p
      requires runnable.q == QueueInherited(r0, p, initproc, z, q1)
      requires forall s: Proc :: procs[s] == Inherited(r0, p, initproc, z, s)
      modifies this`procs, runnable
      ensures Valid() && runnable.q == QueueInherited(r0, p, initproc, z + 1, q1)
      ensures forall s: Proc :: procs[s] == Inherited(r0, p, initproc, z + 1, s)
    {
      hide QueueIsRunnable, CpusAgree, NoMissedChild, NoRepeats, Spells, WokenQueue, QueueInherited, Parented;
      ParentOnly(procs, cpu, runnable.q, z, initproc);
      ParentedInit(procs, initproc, z);
      procs := procs[z := procs[z].(parent := initproc)];
      ghost var moved := procs;
      if procs[z].state == ZOMBIE {
        WakeupLocked(OfProc(initproc));
        QueueGrows(r0, old(procs), moved, p, initproc, z, q1);
        InitWoken(old(procs), z, initproc);
      } else {
        QueueStays(r0, p, initproc, z, q1);
      }
    }

    /** wait, from ptable.lock being held to a child being collected, to -1, or to going to
        sleep; after waking up the scan starts again. */
    method Wait(c: Cpu) returns (r: WaitResult)
      requires Valid() && cpu[c] != NIL
      modifies this, runnable
      ensures Valid() && runnable.q == old(runnable.q)
      ensures var p := old(cpu)[c];
        match r
        case Collected(z) =>
          && old(procs)[z].parent == p && old(procs)[z].state == ZOMBIE && cpu == old(cpu)
          && (forall s: Proc :: s < z && old(procs)[s].parent == p ==> old(procs)[s].state != ZOMBIE)
          && procs == old(procs)[z := ProcRec(UNUSED, 0, old(procs)[z].chan, NIL, false)]
        case NoChild =>
          && ((forall z: Proc :: procs[z].parent != p) || procs[p].killed) && procs == old(procs) && cpu == old(cpu)
          && (forall z: Proc :: procs[z].parent == p ==> procs[z].state != ZOMBIE)
        case Asleep =>
          && (exists z: Proc :: procs[z].parent == p) && cpu == old(cpu)[c := NIL]
          && procs == old(procs)[p := old(procs)[p].(chan := OfProc(p), state := SLEEPING)]
    {
      hide QueueIsRunnable, CpusAgree, NoMissedChild, NoRepeats, Spells, Parented;
      var p := cpu[c];
      RunningNow(procs, cpu, c);
      var havekids := false;
      var z := 0;
      while z < NPROC
        invariant 0 <= z <= NPROC && procs == old(procs) && cpu == old(cpu) && runnable.q == old(runnable.q) && Valid()
        invariant havekids <==> exists s: Proc :: s < z && procs[s].parent == p
        invariant forall s: Proc :: s < z && procs[s].parent == p ==> procs[s].state != ZOMBIE
      {
        if procs[z].parent == p {
          havekids := true;
          if procs[z].state == ZOMBIE {
            CollectedOk(procs, cpu, runnable.q, initproc, z);
            procs := procs[z := ProcRec(UNUSED, 0, procs[z].chan, NIL, false)];
            return Collected(z);
          }
        }
        z := z + 1;
      }
      if !havekids || procs[p].killed {
        return NoChild;
      }
      ghost var child: Proc :| procs[child].parent == p;
      SleepOn(c, OfProc(p));
      assert procs[child].parent == p;
      return Asleep;
    }
  }

  /** Changing a parent moves nobody between states; only init can have missed a child. */
  lemma ParentOnly(procs: Procs, cpu: Cpus, q: seq<Proc>, z: Proc, init: Proc)
    requires QueueIsRunnable(procs, q) && CpusAgree(procs, cpu) && NoMissedChild(procs)
    ensures var w := procs[z := procs[z].(parent := init)];
            QueueIsRunnable(w, q) && CpusAgree(w, cpu) && (procs[z].state != ZOMBIE ==> NoMissedChild(w))
  {}

  lemma ParentThere(procs: Procs, init: Proc, p: Proc)
    requires Parented(procs, init) && p != init && procs[p].state == RUNNING
    ensures 0 <= procs[p].parent < NPROC && procs[p].parent != p
  {}

  lemma ParentedKept(procs: Procs, init: Proc, p: Proc, r: ProcRec)
    requires Parented(procs, init) && r.parent == procs[p].parent && (InUse(r.state) ==> InUse(procs[p].state))
    ensures Parented(procs[p := r], init)
  {}

  lemma ParentedInit(procs: Procs, init: Proc, z: Proc)
    requires Parented(procs, init)
    ensures Parented(procs[z := procs[z].(parent := init)], init)
  {}

  lemma CollectedOk(procs: Procs, cpu: Cpus, q: seq<Proc>, init: Proc, z: Proc)
    requires QueueIsRunnable(procs, q) && CpusAgree(procs, cpu) && NoMissedChild(procs) && Parented(procs, init)
    requires procs[z].state == ZOMBIE
    ensures var w := procs[z := ProcRec(UNUSED, 0, procs[z].chan, NIL, false)];
            QueueIsRunnable(w, q) && CpusAgree(w, cpu) && NoMissedChild(w) && Parented(w, init)
  {
    OneRecord(procs, cpu, z, ProcRec(UNUSED, 0, procs[z].chan, NIL, false));
  }

  lemma InitWoken(procs: Procs, z: Proc, init: Proc)
    requires NoMissedChild(procs)
    ensures NoMissedChild(WokenProcs(procs[z := procs[z].(parent := init)], OfProc(init), NPROC))
  {}

  datatype WaitResult = Collected(z: Proc) | NoChild | Asleep

  lemma RunningNow(procs: Procs, cpu: Cpus, c: Cpu)
    requires CpusAgree(procs, cpu) && cpu[c] != NIL
    ensures 0 <= cpu[c] < NPROC && procs[cpu[c]].state == RUNNING
  {}

  lemma Zombie(procs: Procs, q: seq<Proc>, p: Proc)
    requires QueueIsRunnable(procs, q) && procs[p].state == RUNNING
    ensures QueueIsRunnable(procs[p := procs[p].(state := ZOMBIE)], q)
  {}

  /** One of the first n processes is a dead child of p. */
  ghost predicate DeadChild(procs: Procs, p: Proc, n: nat) {
    exists z: Proc :: z < n && procs[z].parent == p && procs[z].state == ZOMBIE
  }

  /** Waking sleepers neither kills nor revives. */
  lemma DeadChildren(procs: Procs, chan: Chan, p: Proc)
    ensures DeadChild(WokenProcs(procs, chan, NPROC), p, NPROC) <==> DeadChild(procs, p, NPROC)
  {
    var w := WokenProcs(procs, chan, NPROC);
    if z: Proc :| procs[z].parent == p && procs[z].state == ZOMBIE { assert w[z].state == ZOMBIE; }
    if z: Proc :| w[z].parent == p && w[z].state == ZOMBIE { assert procs[z].state == ZOMBIE; }
  }

  /** Record s when the children of p among the first n have gone to init. */
  ghost function Inherited(procs: Procs, p: Proc, init: Proc, n: nat, s: Proc): ProcRec {
    var r := if s < n && procs[s].parent == p then procs[s].(parent := init) else procs[s];
    if DeadChild(procs, p, n) && Wakes(procs[s], OfProc(init)) then r.(state := RUNNABLE) else r
  }

  /** What p's exit makes of another process: children go to init, and a sleeper in wait is
      woken if it is p's parent, or init and inherits a dead child. */
  ghost function AfterExit(procs: Procs, p: Proc, init: Proc, s: Proc): ProcRec {
    var r := if procs[s].parent == p then procs[s].(parent := init) else procs[s];
    if Wakes(procs[s], OfProc(ParentOf(procs, p))) || (DeadChild(procs, p, NPROC) && Wakes(procs[s], OfProc(init)))
    then r.(state := RUNNABLE) else r
  }

  /** p leaves a dead child behind. */
  ghost predicate Bereaved(procs: Procs, p: Proc) { exists k: Proc :: procs[k].parent == p && procs[k].state == ZOMBIE }

  lemma AfterExitIs(procs: Procs, p: Proc, init: Proc, z: Proc)
    requires 0 <= procs[p].parent < NPROC
    ensures var r := procs[z];
            AfterExit(procs, p, init, z) ==
            r.(parent := if r.parent == p then init else r.parent,
               state := if r.state == SLEEPING && r.chan.OfProc? &&
                           (r.chan.p == procs[p].parent || (r.chan.p == init && Bereaved(procs, p)))
                        then RUNNABLE else r.state)
  {}

  /** The queue q1 when the children of p among the first n have gone to init: init is woken
      by the first dead one. */
  ghost function QueueInherited(procs: Procs, p: Proc, init: Proc, n: nat, q1: seq<Proc>): seq<Proc> {
    if DeadChild(procs, p, n) then WokenQueue(procs, OfProc(init), NPROC, q1) else q1
  }

  /** What p's exit puts on the queue: its parent first, then init. */
  ghost function QueueAfterExit(procs: Procs, p: Proc, init: Proc, q: seq<Proc>): seq<Proc> {
    var parent := OfProc(ParentOf(procs, p));
    QueueInherited(WokenProcs(procs, parent, NPROC), p, init, NPROC, WokenQueue(procs, parent, NPROC, q))
  }

  lemma QueueExtends(procs: Procs, p: Proc, init: Proc, q: seq<Proc>)
    ensures q <= QueueAfterExit(procs, p, init, q)
  {
    var parent := OfProc(ParentOf(procs, p));
    var q1 := WokenQueue(procs, parent, NPROC, q);
    WokenExtends(procs, parent, NPROC, q);
    WokenExtends(WokenProcs(procs, parent, NPROC), OfProc(init), NPROC, q1);
  }

  lemma QueueBegins(r0: Procs, p: Proc, init: Proc, q1: seq<Proc>)
    ensures QueueInherited(r0, p, init, 0, q1) == q1
  {}

  lemma QueueStays(r0: Procs, p: Proc, init: Proc, z: Proc, q1: seq<Proc>)
    requires r0[z].parent != p || r0[z].state != ZOMBIE
    ensures QueueInherited(r0, p, init, z + 1, q1) == QueueInherited(r0, p, init, z, q1)
  {
    hide WokenQueue;
    if DeadChild(r0, p, z + 1) {
      var s: Proc :| s < z + 1 && r0[s].parent == p && r0[s].state == ZOMBIE;
      assert s < z;
    }
  }

  /** A dead child wakes init, unless an earlier one has. */
  lemma QueueGrows(r0: Procs, procs: Procs, moved: Procs, p: Proc, init: Proc, z: Proc, q1: seq<Proc>)
    requires forall s: Proc :: procs[s] == Inherited(r0, p, init, z, s)
    requires procs[z].parent == p && procs[z].state == ZOMBIE && moved == procs[z := procs[z].(parent := init)]
    ensures WokenQueue(moved, OfProc(init), NPROC, QueueInherited(r0, p, init, z, q1))
         == QueueInherited(r0, p, init, z + 1, q1)
  {
    hide WokenQueue;
    assert r0[z].parent == p && r0[z].state == ZOMBIE;
    assert DeadChild(r0, p, z + 1);
    if DeadChild(r0, p, z) {
      NoneWoken(moved, OfProc(init), NPROC, QueueInherited(r0, p, init, z, q1));
    } else {
      SameWoken(moved, r0, OfProc(init), NPROC, q1);
    }
  }

  lemma {:induction false} SameWoken(a: Procs, b: Procs, chan: Chan, n: nat, q: seq<Proc>)
    requires n <= NPROC && forall i: Proc :: Wakes(a[i], chan) == Wakes(b[i], chan)
    ensures WokenQueue(a, chan, n, q) == WokenQueue(b, chan, n, q)
  {
    if n > 0 { SameWoken(a, b, chan, n - 1, q); }
  }

  lemma {:induction false} NoneWoken(procs: Procs, chan: Chan, n: nat, q: seq<Proc>)
    requires n <= NPROC && forall i: Proc :: !Wakes(procs[i], chan)
    ensures WokenQueue(procs, chan, n, q) == q
  {
    if n > 0 { NoneWoken(procs, chan, n - 1, q); }
  }

  function ParentOf(procs: Procs, p: Proc): Proc {
    if 0 <= procs[p].parent < NPROC then procs[p].parent else p
  }

  lemma {:induction false} WokenExtends(procs: Procs, chan: Chan, n: nat, q: seq<Proc>)
    requires n <= NPROC
    ensures q <= WokenQueue(procs, chan, n, q)
  {
    if n > 0 { WokenExtends(procs, chan, n - 1, q); }
  }

  function Killed(r: ProcRec): ProcRec {
    r.(killed := true, state := if r.state == SLEEPING then RUNNABLE else r.state)
  }

  lemma KilledOk(procs: Procs, cpu: Cpus, p: Proc)
    requires CpusAgree(procs, cpu) && NoMissedChild(procs)
    ensures CpusAgree(procs[p := Killed(procs[p])], cpu) && NoMissedChild(procs[p := Killed(procs[p])])
  {}

  lemma KilledQueue(procs: Procs, q: seq<Proc>, p: Proc)
    requires QueueIsRunnable(procs, q)
    ensures procs[p].state == SLEEPING ==> p !in q
    ensures QueueIsRunnable(procs[p := Killed(procs[p])], if procs[p].state == SLEEPING then q + [p] else q)
  {}

  lemma Picked(procs: Procs, cpu: Cpus, c: Cpu, p: Proc, q: seq<Proc>)
    requires QueueIsRunnable(procs, q) && CpusAgree(procs, cpu) && NoMissedChild(procs) && NoRepeats(q)
    requires cpu[c] == NIL && q != [] && p == q[0]
    ensures var w := procs[p := procs[p].(state := RUNNING)];
            QueueIsRunnable(w, q[1..]) && CpusAgree(w, cpu[c := p]) && NoMissedChild(w)
  {
    var w := procs[p := procs[p].(state := RUNNING)];
    assert p in q;
    forall r: Proc ensures w[r].state == RUNNABLE <==> r in q[1..] {
      if r in q && r != p {
        var i :| 0 <= i < |q| && q[i] == r;
        assert q[1..][i - 1] == r;
      }
    }
    forall r: Proc | w[r].state == RUNNING ensures OnCpu(cpu[c := p], r) {
      if r == p {
        assert cpu[c := p][c] == r;
      } else {
        var d: Cpu :| cpu[d] == r;
        assert cpu[c := p][d] == r;
      }
    }
  }

  /** The process on c stops running, in any state but RUNNING. */
  lemma Left(procs: Procs, cpu: Cpus, c: Cpu, r: ProcRec)
    requires CpusAgree(procs, cpu) && NoMissedChild(procs) && cpu[c] != NIL
    requires r.state != RUNNING && r.parent == procs[cpu[c]].parent
    requires r.state == SLEEPING && r.chan == OfProc(cpu[c]) ==>
               forall z: Proc :: procs[z].parent == cpu[c] ==> procs[z].state != ZOMBIE
    requires r.state == ZOMBIE && 0 <= r.parent < NPROC ==>
          procs[r.parent].state != SLEEPING || procs[r.parent].chan != OfProc(r.parent)
    ensures var w := procs[cpu[c] := r];
            CpusAgree(w, cpu[c := NIL]) && NoMissedChild(w)
  {
    var p := cpu[c];
    var w := procs[p := r];
    forall s: Proc | w[s].state == RUNNING ensures OnCpu(cpu[c := NIL], s) {
      var d: Cpu :| cpu[d] == s;
      assert d != c;
      assert cpu[c := NIL][d] == s;
    }
  }

  /** A change of one record that leaves the cpus alone. */
  lemma OneRecord(procs: Procs, cpu: Cpus, p: Proc, r: ProcRec)
    requires CpusAgree(procs, cpu) && NoMissedChild(procs)
    requires procs[p].state != RUNNING && r.state != RUNNING && r.state != SLEEPING
    requires r.state != ZOMBIE
    ensures CpusAgree(procs[p := r], cpu) && NoMissedChild(procs[p := r])
  {}
}
