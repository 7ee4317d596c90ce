/** sleeplock.c over sleep and wakeup: every interleaving of any number of processes on any
    number of cpus that use one sleeplock, one statement at a time. */
module SleepLock {
  import opened Basics

  /** The statement a process executes next. */
  datatype Pc =
    | Idle
    // acquiresleep
    | AcqLock                  // acquire(&lk->lk)
    | Test                     // while (lk->locked)
    | SleepAcq                 // sleep: acquire(&ptable.lock)
    | SleepRel                 //        release(lk)
    | GoSleep                  //        p->chan = chan; p->state = SLEEPING
    | Switch                   //        switch_to_scheduler, where the scheduler releases ptable.lock
    | Asleep                   //        off the cpu until the scheduler picks it
    | SleepDone                //        p->chan = nullptr; release(&ptable.lock)
    | Reacq                    //        acquire(lk)
    | SetLocked                // lk->locked = 1
    | SetPid                   // lk->pid = p->pid
    | AcqDone                  // release(&lk->lk)
    | Holding
    // releasesleep
    | RelLock                  // acquire(&lk->lk)
    | ClrLocked                // lk->locked = 0
    | ClrPid                   // lk->pid = 0
    | WakeAcq                  // wakeup: acquire(&ptable.lock)
    | Scan(i: nat)             // wakeup_locked at slot i
    | WakeRel                  //         release(&ptable.lock)
    | RelDone                  // release(&lk->lk)

  /** procstate, with the channel of a sleeper: this lock or something else. */
  datatype State = Running | Runnable | Sleeping(onLock: bool)

  /** cpu[p] is the cpu process p is on. lk and pt are the holders of lk->lk and ptable.lock;
      owner repeats who set `locked`, for the statement of mutual exclusion. */
  datatype Sys = Sys(pc: seq<Pc>, st: seq<State>, cpu: seq<Option<nat>>,
                     lk: Option<nat>, pt: Option<nat>,
                     locked: bool, pid: Option<nat>, owner: Option<nat>)
  {
    predicate Proc(p: nat) { p < |pc| && |st| == |pc| && |cpu| == |pc| }

    function Goto(p: nat, to: Pc): Sys
      requires Proc(p)
    {
      this.(pc := pc[p := to])
    }
  }

  /** What can happen next: a process executes its statement, enters or leaves; the scheduler
      takes a process off a cpu or puts one on; a process blocks elsewhere; a wakeup on
      another channel or kill makes a sleeper runnable. */
  datatype Step =
    | Advance(p: nat) | Enter(p: nat) | Leave(p: nat)
    | Preempt(p: nat) | Dispatch(p: nat, c: nat)
    | BlockElsewhere(p: nat) | WakeElsewhere(p: nat) | Kill(p: nat)

  function Acquire(s: Sys, p: nat, to: Pc): Option<Sys>
    requires s.Proc(p)
  {
    if s.lk.None? then Some(s.Goto(p, to).(lk := Some(p))) else None
  }

  function AcquirePt(s: Sys, p: nat, to: Pc): Option<Sys>
    requires s.Proc(p)
  {
    if s.pt.None? then Some(s.Goto(p, to).(pt := Some(p))) else None
  }

  /** A statement of acquiresleep itself. */
  function ExecAcquire(s: Sys, p: nat): Option<Sys>
    requires s.Proc(p)
  {
    match s.pc[p]
    case AcqLock => Acquire(s, p, Test)
    case Test => Some(s.Goto(p, if s.locked then SleepAcq else SetLocked))
    case SetLocked => Some(s.Goto(p, SetPid).(locked := true, owner := Some(p)))
    case SetPid => Some(s.Goto(p, AcqDone).(pid := Some(p)))
    case AcqDone => Some(s.Goto(p, Holding).(lk := None))
    case _ => None
  }

  /** A statement of the sleep it calls. */
  function ExecSleep(s: Sys, p: nat): Option<Sys>
    requires s.Proc(p)
  {
    match s.pc[p]
    case SleepAcq => AcquirePt(s, p, SleepRel)
    case SleepRel => Some(s.Goto(p, GoSleep).(lk := None))
    case GoSleep => Some(s.Goto(p, Switch).(st := s.st[p := Sleeping(true)]))
    case Switch => Some(s.Goto(p, Asleep).(pt := None, cpu := s.cpu[p := None]))
    case SleepDone => Some(s.Goto(p, Reacq).(pt := None))
    case Reacq => Acquire(s, p, Test)
    case _ => None
  }

  /** A statement of releasesleep, or of the wakeup it calls. */
  function ExecRelease(s: Sys, p: nat): Option<Sys>
    requires s.Proc(p)
  {
    match s.pc[p]
    case RelLock => Acquire(s, p, ClrLocked)
    case ClrLocked => Some(s.Goto(p, ClrPid).(locked := false, owner := None))
    case ClrPid => Some(s.Goto(p, WakeAcq).(pid := None))
    case WakeAcq => AcquirePt(s, p, Scan(0))
    case Scan(i) =>
      if i < |s.pc| then
        Some(s.Goto(p, Scan(i + 1)).(st := if s.st[i] == Sleeping(true) then s.st[i := Runnable] else s.st))
      else Some(s.Goto(p, WakeRel))
    case WakeRel => Some(s.Goto(p, RelDone).(pt := None))
    case RelDone => Some(s.Goto(p, Idle).(lk := None))
    case _ => None
  }

  /** The next statement of process p, which is on a cpu. */
  function Exec(s: Sys, p: nat): Option<Sys>
    requires s.Proc(p)
  {
    if ExecAcquire(s, p).Some? then ExecAcquire(s, p)
    else if ExecSleep(s, p).Some? then ExecSleep(s, p)
    else ExecRelease(s, p)
  }

  /** No spinlock held or being taken, so interrupts are on. */
  predicate Interruptible(c: Pc) { c.Idle? || c.AcqLock? || c.Reacq? || c.Holding? || c.RelLock? }

  function Next(s: Sys, step: Step): Option<Sys> {
    if !s.Proc(step.p) then None else
    var p := step.p;
    match step
    case Advance(_) => if s.cpu[p].Some? then Exec(s, p) else None
    case Enter(_) => if s.cpu[p].Some? && s.pc[p] == Idle then Some(s.Goto(p, AcqLock)) else None
    case Leave(_) => if s.cpu[p].Some? && s.pc[p] == Holding then Some(s.Goto(p, RelLock)) else None
    case Preempt(_) =>
      if s.cpu[p].Some? && Interruptible(s.pc[p]) && s.pt.None?
      then Some(s.(st := s.st[p := Runnable], cpu := s.cpu[p := None])) else None
    case Dispatch(_, c) =>
      if s.st[p] == Runnable && s.cpu[p].None? && s.pt.None? && Some(c) !in s.cpu then
        var t := s.(st := s.st[p := Running], cpu := s.cpu[p := Some(c)]);
        Some(if s.pc[p] == Asleep then t.Goto(p, SleepDone).(pt := Some(p)) else t)
      else None
    case BlockElsewhere(_) =>
      if s.cpu[p].Some? && (s.pc[p] == Holding || s.pc[p] == Idle) && s.pt.None?
      then Some(s.(st := s.st[p := Sleeping(false)], cpu := s.cpu[p := None])) else None
    case WakeElsewhere(_) =>
      if s.st[p] == Sleeping(false) && s.pt.None? then Some(s.(st := s.st[p := Runnable])) else None
    case Kill(_) =>
      if s.st[p].Sleeping? && s.pt.None? then Some(s.(st := s.st[p := Runnable])) else None
  }

  /** The lock as initsleeplock leaves it, n processes, none of them on a cpu yet. */
  function Init(n: nat): Sys {
    Sys(seq(n, _ => Idle), seq(n, _ => Runnable), seq(n, _ => None), None, None, false, None, None)
  }

  /** The state after a run, if every step of it was possible. */
  function Run(s: Sys, steps: seq<Step>): Option<Sys> {
    if steps == [] then Some(s)
    else
      var t := Run(s, steps[..|steps| - 1]);
      if t.None? then None else Next(t.value, steps[|steps| - 1])
  }

  // ---- the invariant ----

  predicate HoldsLk(c: Pc) {
    c.Test? || c.SleepAcq? || c.SleepRel? || c.SetLocked? || c.SetPid? || c.AcqDone?
    || c.ClrLocked? || c.ClrPid? || c.WakeAcq? || c.Scan? || c.WakeRel? || c.RelDone?
  }

  predicate HoldsPt(c: Pc) {
    c.SleepRel? || c.GoSleep? || c.Switch? || c.SleepDone? || c.Scan? || c.WakeRel?
  }

  predicate Owns(c: Pc) { c.SetPid? || c.AcqDone? || c.Holding? || c.RelLock? || c.ClrLocked? }

  /** p has found the lock taken and sleeps on it, or will without looking again. */
  predicate Waits(s: Sys, p: nat)
    requires s.Proc(p)
  {
    || s.pc[p].SleepAcq? || s.pc[p].SleepRel? || s.pc[p].GoSleep?
    || ((s.pc[p].Switch? || s.pc[p].Asleep?) && s.st[p] == Sleeping(true))
  }

  /** Process q is inside releasesleep and its wakeup has yet to look at slot p. */
  predicate WillWake(c: Pc, p: nat) {
    c.ClrPid? || c.WakeAcq? || (c.Scan? && c.i <= p)
  }

  /** Which locks a process at statement c holds, whether pid names it, and `locked`. */
  predicate Locks(c: Pc, lk: bool, pt: bool, own: bool, named: bool, locked: bool) {
    && (HoldsLk(c) <==> lk)
    && (HoldsPt(c) <==> pt)
    && (Owns(c) <==> own)
    && (c.AcqDone? || c.Holding? || c.RelLock? || c.ClrLocked? || c.ClrPid? <==> named)
    && (c.SleepAcq? || c.SleepRel? ==> locked)
    && (c.SetLocked? || c.ClrPid? || c.WakeAcq? || c.Scan? || c.WakeRel? || c.RelDone? ==> !locked)
  }

  /** Its state, and whether it is on a cpu. */
  predicate Runs(c: Pc, st: State, on: bool) {
    && (HoldsLk(c) || HoldsPt(c) ==> on)
    && (c.Asleep? ==> !on && st != Running)
    && (on && !c.Switch? ==> st == Running)
    && (st == Running ==> on)
    && (c.Switch? ==> st == Sleeping(true))
    && (st == Sleeping(true) ==> c.Switch? || c.Asleep?)
  }

  predicate LocksAt(s: Sys, p: nat)
    requires s.Proc(p)
  {
    Locks(s.pc[p], s.lk == Some(p), s.pt == Some(p), s.owner == Some(p), s.pid == Some(p), s.locked)
  }

  predicate RunsAt(s: Sys, p: nat)
    requires s.Proc(p)
  {
    Runs(s.pc[p], s.st[p], s.cpu[p].Some?)
  }

  /** A process that waits while the lock is free has a wakeup coming. */
  predicate Promised(s: Sys, p: nat)
    requires s.Proc(p)
  {
    Waits(s, p) ==> s.locked || (s.lk.Some? && s.lk.value < |s.pc| && WillWake(s.pc[s.lk.value], p))
  }

  predicate Good(s: Sys, p: nat)
    requires s.Proc(p)
  {
    LocksAt(s, p) && RunsAt(s, p) && Promised(s, p)
  }

  predicate InRange(o: Option<nat>, n: nat) { o.Some? ==> o.value < n }

  /** No two processes are on one cpu. */
  predicate Apart(cpu: seq<Option<nat>>) {
    forall p, q :: 0 <= p < |cpu| && 0 <= q < |cpu| && p != q && cpu[p].Some? ==> cpu[p] != cpu[q]
  }

  predicate Inv(s: Sys) {
    && |s.st| == |s.pc| == |s.cpu|
    && (s.locked <==> s.owner.Some?)
    && InRange(s.lk, |s.pc|) && InRange(s.pt, |s.pc|) && InRange(s.owner, |s.pc|)
    && (forall p :: 0 <= p < |s.pc| ==> Good(s, p))
    && Apart(s.cpu)
  }

  lemma InitInv(n: nat)
    ensures Inv(Init(n))
  {}

  /** The processes a step of q can concern: p, q and the holders. */
  lemma Members(s: Sys, q: nat, p: nat)
    requires Inv(s) && s.Proc(q) && s.Proc(p)
    ensures LocksAt(s, p) && LocksAt(s, q) && RunsAt(s, p) && RunsAt(s, q) && Promised(s, p)
    ensures s.locked <==> s.owner.Some?
    ensures s.lk.Some? ==> s.lk.value < |s.pc| && LocksAt(s, s.lk.value) && RunsAt(s, s.lk.value)
    ensures s.pt.Some? ==> s.pt.value < |s.pc| && LocksAt(s, s.pt.value)
    ensures s.owner.Some? ==> s.owner.value < |s.pc| && LocksAt(s, s.owner.value)
  {
    hide LocksAt, RunsAt, Promised, Apart;
    assert Good(s, p) && Good(s, q);
    assert s.lk.Some? ==> Good(s, s.lk.value);
    assert s.pt.Some? ==> Good(s, s.pt.value);
    assert s.owner.Some? ==> Good(s, s.owner.value);
  }

  // One statement of q keeps what holds of every process p ...

  lemma AcquireLocks(s: Sys, q: nat, p: nat)
    requires Inv(s) && s.Proc(q) && s.Proc(p) && ExecAcquire(s, q).Some?
    ensures ExecAcquire(s, q).value.Proc(p) && LocksAt(ExecAcquire(s, q).value, p)
  {
    hide Inv, LocksAt;
    if p == q { AcquireLocksSelf(s, p); } else { AcquireLocksOther(s, q, p); }
  }

  /** What a statement of acquiresleep itself does to the lock, and what p executes next. */
  predicate AcquireMoves(s: Sys, t: Sys, p: nat)
    requires s.Proc(p) && t.Proc(p)
  {
    && t.pt == s.pt
    && match s.pc[p]
       case AcqLock => t.pc[p] == Test && t.lk == Some(p) && SameFields(s, t)
       case Test => t.pc[p] == (if s.locked then SleepAcq else SetLocked) && t.lk == s.lk && SameFields(s, t)
       case SetLocked => t.pc[p] == SetPid && t.lk == s.lk && t.locked && t.owner == Some(p) && t.pid == s.pid
       case SetPid =>
         t.pc[p] == AcqDone && t.lk == s.lk && t.locked == s.locked && t.owner == s.owner && t.pid == Some(p)
       case AcqDone => t.pc[p] == Holding && t.lk == None && SameFields(s, t)
       case _ => false
  }

  predicate SameFields(s: Sys, t: Sys) { t.locked == s.locked && t.owner == s.owner && t.pid == s.pid }

  lemma AcquireIs(s: Sys, p: nat)
    requires s.Proc(p) && ExecAcquire(s, p).Some?
    ensures ExecAcquire(s, p).value.Proc(p) && AcquireMoves(s, ExecAcquire(s, p).value, p)
  {}

  lemma AcquireMovesLocks(s: Sys, t: Sys, p: nat)
    requires s.Proc(p) && t.Proc(p) && AcquireMoves(s, t, p) && LocksAt(s, p) && (s.locked <==> s.owner.Some?)
    ensures LocksAt(t, p)
  {}

  lemma AcquireLocksSelf(s: Sys, p: nat)
    requires Inv(s) && s.Proc(p) && ExecAcquire(s, p).Some?
    ensures ExecAcquire(s, p).value.Proc(p) && LocksAt(ExecAcquire(s, p).value, p)
  {
    hide Inv, Promised, RunsAt, LocksAt, ExecAcquire, AcquireMoves;
    Members(s, p, p);
    AcquireIs(s, p);
    AcquireMovesLocks(s, ExecAcquire(s, p).value, p);
  }

  lemma AcquireLocksOther(s: Sys, q: nat, p: nat)
    requires Inv(s) && s.Proc(q) && s.Proc(p) && p != q && ExecAcquire(s, q).Some?
    ensures ExecAcquire(s, q).value.Proc(p) && LocksAt(ExecAcquire(s, q).value, p)
  {
    hide Inv, Promised, RunsAt;
    Members(s, q, p);
  }

  lemma SleepLocks(s: Sys, q: nat, p: nat)
    requires Inv(s) && s.Proc(q) && s.Proc(p) && ExecSleep(s, q).Some?
    ensures ExecSleep(s, q).value.Proc(p) && LocksAt(ExecSleep(s, q).value, p)
  {
    hide Inv, LocksAt;
    if p == q { SleepLocksSelf(s, p); } else { SleepLocksOther(s, q, p); }
  }

  /** Which locks a statement of sleep takes and gives up, and what p executes next. */
  predicate SleepMoves(s: Sys, t: Sys, p: nat)
    requires s.Proc(p) && t.Proc(p)
  {
    && t.locked == s.locked && t.pid == s.pid && t.owner == s.owner
    && match s.pc[p]
       case SleepAcq => t.pc[p] == SleepRel && s.pt.None? && t.pt == Some(p) && t.lk == s.lk
       case SleepRel => t.pc[p] == GoSleep && t.lk == None && t.pt == s.pt
       case GoSleep => t.pc[p] == Switch && t.lk == s.lk && t.pt == s.pt
       case Switch => t.pc[p] == Asleep && t.lk == s.lk && t.pt == None
       case SleepDone => t.pc[p] == Reacq && t.lk == s.lk && t.pt == None
       case Reacq => t.pc[p] == Test && s.lk.None? && t.lk == Some(p) && t.pt == s.pt
       case _ => false
  }

  lemma SleepIs(s: Sys, p: nat)
    requires s.Proc(p) && ExecSleep(s, p).Some?
    ensures ExecSleep(s, p).value.Proc(p) && SleepMoves(s, ExecSleep(s, p).value, p)
  {}

  lemma SleepMovesLocks(s: Sys, t: Sys, p: nat)
    requires s.Proc(p) && t.Proc(p) && SleepMoves(s, t, p) && LocksAt(s, p)
    ensures LocksAt(t, p)
  {}

  lemma SleepLocksSelf(s: Sys, p: nat)
    requires Inv(s) && s.Proc(p) && ExecSleep(s, p).Some?
    ensures ExecSleep(s, p).value.Proc(p) && LocksAt(ExecSleep(s, p).value, p)
  {
    hide Inv, Promised, RunsAt, LocksAt, ExecSleep, SleepMoves;
    Members(s, p, p);
    SleepIs(s, p);
    SleepMovesLocks(s, ExecSleep(s, p).value, p);
  }

  lemma SleepLocksOther(s: Sys, q: nat, p: nat)
    requires Inv(s) && s.Proc(q) && s.Proc(p) && p != q && ExecSleep(s, q).Some?
    ensures ExecSleep(s, q).value.Proc(p) && LocksAt(ExecSleep(s, q).value, p)
  {
    hide Inv, Promised, RunsAt;
    Members(s, q, p);
  }

  lemma ReleaseLocks(s: Sys, q: nat, p: nat)
    requires Inv(s) && s.Proc(q) && s.Proc(p) && ExecRelease(s, q).Some?
    ensures ExecRelease(s, q).value.Proc(p) && LocksAt(ExecRelease(s, q).value, p)
  {
    hide Inv, LocksAt;
    if p == q { ReleaseLocksSelf(s, p); } else { ReleaseLocksOther(s, q, p); }
  }

  /** What a statement of releasesleep, or of its wakeup, does to the locks. */
  predicate ReleaseMoves(s: Sys, t: Sys, p: nat)
    requires s.Proc(p) && t.Proc(p)
  {
    match s.pc[p]
    case RelLock => t.pc[p] == ClrLocked && t.lk == Some(p) && t.pt == s.pt && SameFields(s, t)
    case ClrLocked =>
      t.pc[p] == ClrPid && t.lk == s.lk && t.pt == s.pt && !t.locked && t.owner == None && t.pid == s.pid
    case ClrPid =>
      && t.pc[p] == WakeAcq && t.lk == s.lk && t.pt == s.pt
      && t.locked == s.locked && t.owner == s.owner && t.pid == None
    case WakeAcq => t.pc[p] == Scan(0) && t.lk == s.lk && s.pt.None? && t.pt == Some(p) && SameFields(s, t)
    case Scan(i) =>
      t.pc[p] == (if i < |s.pc| then Scan(i + 1) else WakeRel) && t.lk == s.lk && t.pt == s.pt && SameFields(s, t)
    case WakeRel => t.pc[p] == RelDone && t.lk == s.lk && t.pt == None && SameFields(s, t)
    case RelDone => t.pc[p] == Idle && t.lk == None && t.pt == s.pt && SameFields(s, t)
    case _ => false
  }

  lemma ReleaseIs(s: Sys, p: nat)
    requires s.Proc(p) && ExecRelease(s, p).Some?
    ensures ExecRelease(s, p).value.Proc(p) && ReleaseMoves(s, ExecRelease(s, p).value, p)
  {}

  lemma ReleaseMovesLocks(s: Sys, t: Sys, p: nat)
    requires s.Proc(p) && t.Proc(p) && ReleaseMoves(s, t, p) && LocksAt(s, p)
    ensures LocksAt(t, p)
  {}

  lemma ReleaseLocksSelf(s: Sys, p: nat)
    requires Inv(s) && s.Proc(p) && ExecRelease(s, p).Some?
    ensures ExecRelease(s, p).value.Proc(p) && LocksAt(ExecRelease(s, p).value, p)
  {
    hide Inv, Promised, RunsAt, LocksAt, ExecRelease, ReleaseMoves;
    Members(s, p, p);
    ReleaseIs(s, p);
    ReleaseMovesLocks(s, ExecRelease(s, p).value, p);
  }

  lemma ReleaseLocksOther(s: Sys, q: nat, p: nat)
    requires Inv(s) && s.Proc(q) && s.Proc(p) && p != q && ExecRelease(s, q).Some?
    ensures ExecRelease(s, q).value.Proc(p) && LocksAt(ExecRelease(s, q).value, p)
  {
    hide Inv, Promised, RunsAt;
    Members(s, q, p);
  }

  lemma AcquireRuns(s: Sys, q: nat, p: nat)
    requires Inv(s) && s.Proc(q) && s.Proc(p) && s.cpu[q].Some? && ExecAcquire(s, q).Some?
    ensures ExecAcquire(s, q).value.Proc(p) && RunsAt(ExecAcquire(s, q).value, p)
  {
    hide Inv, Promised;
    Members(s, q, p);
  }

  lemma SleepRuns(s: Sys, q: nat, p: nat)
    requires Inv(s) && s.Proc(q) && s.Proc(p) && s.cpu[q].Some? && ExecSleep(s, q).Some?
    ensures ExecSleep(s, q).value.Proc(p) && RunsAt(ExecSleep(s, q).value, p)
  {
    hide Inv, RunsAt;
    Members(s, q, p);
    if p == q { SleepRunsSelf(s, p); } else { SleepElsewhere(s, q, p); }
  }

  lemma SleepRunsSelf(s: Sys, p: nat)
    requires s.Proc(p) && RunsAt(s, p) && s.cpu[p].Some? && ExecSleep(s, p).Some?
    ensures ExecSleep(s, p).value.Proc(p) && RunsAt(ExecSleep(s, p).value, p)
  {}

  lemma SleepElsewhere(s: Sys, q: nat, p: nat)
    requires s.Proc(q) && s.Proc(p) && p != q && RunsAt(s, p) && ExecSleep(s, q).Some?
    ensures ExecSleep(s, q).value.Proc(p) && RunsAt(ExecSleep(s, q).value, p)
  {
    var t := ExecSleep(s, q).value;
    assert t.Proc(p) && t.pc[p] == s.pc[p] && t.st[p] == s.st[p] && t.cpu[p] == s.cpu[p];
  }

  lemma ReleaseRuns(s: Sys, q: nat, p: nat)
    requires Inv(s) && s.Proc(q) && s.Proc(p) && s.cpu[q].Some? && ExecRelease(s, q).Some?
    ensures ExecRelease(s, q).value.Proc(p) && RunsAt(ExecRelease(s, q).value, p)
  {
    hide Inv, RunsAt, LocksAt;
    Members(s, q, p);
    if p == q { ReleaseRunsSelf(s, p); } else { ReleaseElsewhere(s, q, p); }
  }

  lemma ReleaseRunsSelf(s: Sys, p: nat)
    requires s.Proc(p) && RunsAt(s, p) && s.cpu[p].Some? && ExecRelease(s, p).Some?
    ensures ExecRelease(s, p).value.Proc(p) && RunsAt(ExecRelease(s, p).value, p)
  {}

  lemma ReleaseElsewhere(s: Sys, q: nat, p: nat)
    requires s.Proc(q) && s.Proc(p) && p != q && RunsAt(s, p) && LocksAt(s, p) && LocksAt(s, q)
    requires ExecRelease(s, q).Some?
    ensures ExecRelease(s, q).value.Proc(p) && RunsAt(ExecRelease(s, q).value, p)
  {
    var t := ExecRelease(s, q).value;
    assert t.Proc(p) && t.pc[p] == s.pc[p] && t.cpu[p] == s.cpu[p];
    assert t.st[p] == s.st[p] || (s.st[p] == Sleeping(true) && t.st[p] == Runnable);
  }

  // ... and the promise made to every waiter.

  lemma AcquirePromise(s: Sys, q: nat, p: nat)
    requires Inv(s) && s.Proc(q) && s.Proc(p) && ExecAcquire(s, q).Some?
    ensures ExecAcquire(s, q).value.Proc(p) && Promised(ExecAcquire(s, q).value, p)
  {
    hide Inv, RunsAt;
    Members(s, q, p);
  }

  lemma SleepPromise(s: Sys, q: nat, p: nat)
    requires Inv(s) && s.Proc(q) && s.Proc(p) && ExecSleep(s, q).Some?
    ensures ExecSleep(s, q).value.Proc(p) && Promised(ExecSleep(s, q).value, p)
  {
    hide Inv, RunsAt;
    Members(s, q, p);
  }

  lemma ReleasePromise(s: Sys, q: nat, p: nat)
    requires Inv(s) && s.Proc(q) && s.Proc(p) && ExecRelease(s, q).Some?
    ensures ExecRelease(s, q).value.Proc(p) && Promised(ExecRelease(s, q).value, p)
  {
    hide Inv, RunsAt;
    Members(s, q, p);
  }

  lemma SchedLocks(s: Sys, step: Step, p: nat)
    requires Inv(s) && s.Proc(p) && !step.Advance? && Next(s, step).Some?
    ensures Next(s, step).value.Proc(p) && LocksAt(Next(s, step).value, p)
  {
    hide Inv, Promised, RunsAt, LocksAt, Exec;
    Members(s, step.p, p);
    if step.Dispatch? { DispatchLocks(s, step, p); } else { OtherLocks(s, step, p); }
  }

  lemma DispatchLocks(s: Sys, step: Step, p: nat)
    requires s.Proc(p) && LocksAt(s, p) && s.Proc(step.p) && LocksAt(s, step.p) && step.Dispatch? && Next(s, step).Some?
    ensures Next(s, step).value.Proc(p) && LocksAt(Next(s, step).value, p)
  {
    hide Locks, Next;
    DispatchIs(s, step, p);
    DispatchKeeps(s.pc[p], s.pt == Some(p), s.lk == Some(p), s.owner == Some(p), s.pid == Some(p), s.locked);
    var t := Next(s, step).value;
    assert t.pc[p] == s.pc[p] || t.pc[p] == SleepDone;
  }

  /** A process that was Asleep comes back with ptable.lock. */
  lemma DispatchIs(s: Sys, step: Step, p: nat)
    requires s.Proc(p) && s.Proc(step.p) && step.Dispatch? && Next(s, step).Some?
    ensures var t := Next(s, step).value;
            && t.Proc(p) && t.lk == s.lk && t.locked == s.locked && t.owner == s.owner && t.pid == s.pid
            && s.pt.None? && (t.pt == Some(p) <==> p == step.p && s.pc[p] == Asleep)
            && t.pc[p] == if p == step.p && s.pc[p] == Asleep then SleepDone else s.pc[p]
  {
    hide Exec;
  }

  lemma DispatchKeeps(c: Pc, pt: bool, lk: bool, own: bool, named: bool, locked: bool)
    requires Locks(c, lk, pt, own, named, locked)
    ensures c == Asleep ==> Locks(SleepDone, lk, true, own, named, locked)
  {}

  lemma OtherLocks(s: Sys, step: Step, p: nat)
    requires s.Proc(p) && LocksAt(s, p) && !step.Advance? && !step.Dispatch? && Next(s, step).Some?
    ensures Next(s, step).value.Proc(p) && LocksAt(Next(s, step).value, p)
  {
    hide Exec;
  }

  lemma SchedRuns(s: Sys, step: Step, p: nat)
    requires Inv(s) && s.Proc(p) && !step.Advance? && Next(s, step).Some?
    ensures Next(s, step).value.Proc(p) && RunsAt(Next(s, step).value, p)
  {
    hide Inv, Promised, Exec;
    Members(s, step.p, p);
  }

  lemma SchedPromise(s: Sys, step: Step, p: nat)
    requires Inv(s) && s.Proc(p) && !step.Advance? && Next(s, step).Some?
    ensures Next(s, step).value.Proc(p) && Promised(Next(s, step).value, p)
  {
    hide Inv, Exec;
    Members(s, step.p, p);
  }

  lemma StepGood(s: Sys, step: Step, p: nat)
    requires Inv(s) && s.Proc(p) && Next(s, step).Some?
    ensures Next(s, step).value.Proc(p) && Good(Next(s, step).value, p)
  {
    hide Inv, ExecAcquire, ExecSleep, ExecRelease, LocksAt, RunsAt, Promised;
    if step.Advance? {
      var q := step.p;
      if ExecAcquire(s, q).Some? { AcquireLocks(s, q, p); AcquireRuns(s, q, p); AcquirePromise(s, q, p); }
      else if ExecSleep(s, q).Some? { SleepLocks(s, q, p); SleepRuns(s, q, p); SleepPromise(s, q, p); }
      else { ReleaseLocks(s, q, p); ReleaseRuns(s, q, p); ReleasePromise(s, q, p); }
    } else {
      SchedLocks(s, step, p);
      SchedRuns(s, step, p);
      SchedPromise(s, step, p);
    }
  }

  predicate Frame(s: Sys, t: Sys) {
    && |t.st| == |t.pc| == |t.cpu| == |s.pc|
    && (t.locked <==> t.owner.Some?)
    && InRange(t.lk, |t.pc|) && InRange(t.pt, |t.pc|) && InRange(t.owner, |t.pc|)
  }

  /** A statement of q takes or gives up locks for q only, and at most leaves the cpu. */
  predicate Moved(s: Sys, t: Sys, q: nat) {
    && |t.pc| == |s.pc| && |t.st| == |s.st|
    && (t.lk == s.lk || t.lk == None || t.lk == Some(q))
    && (t.pt == s.pt || t.pt == None || t.pt == Some(q))
    && (t.cpu == s.cpu || (q < |s.cpu| && t.cpu == s.cpu[q := None]))
    && (|| (t.owner == s.owner && t.locked == s.locked)
        || (t.owner == Some(q) && t.locked)
        || (t.owner == None && !t.locked))
  }

  lemma AcquireMoved(s: Sys, q: nat)
    requires s.Proc(q) && ExecAcquire(s, q).Some?
    ensures Moved(s, ExecAcquire(s, q).value, q)
  {}

  lemma SleepMoved(s: Sys, q: nat)
    requires s.Proc(q) && ExecSleep(s, q).Some?
    ensures Moved(s, ExecSleep(s, q).value, q)
  {}

  lemma ReleaseMoved(s: Sys, q: nat)
    requires s.Proc(q) && ExecRelease(s, q).Some?
    ensures Moved(s, ExecRelease(s, q).value, q)
  {}

  lemma MovedFrame(s: Sys, t: Sys, q: nat)
    requires Inv(s) && s.Proc(q) && Moved(s, t, q)
    ensures Frame(s, t) && Apart(t.cpu)
  {
    hide Good;
  }

  lemma ExecMoved(s: Sys, q: nat)
    requires s.Proc(q) && Exec(s, q).Some?
    ensures Moved(s, Exec(s, q).value, q)
  {
    hide ExecAcquire, ExecSleep, ExecRelease, Moved;
    if ExecAcquire(s, q).Some? { AcquireMoved(s, q); }
    else if ExecSleep(s, q).Some? { SleepMoved(s, q); }
    else { ReleaseMoved(s, q); }
  }

  lemma SchedFrame(s: Sys, step: Step)
    requires Inv(s) && Next(s, step).Some? && !step.Advance?
    ensures Frame(s, Next(s, step).value) && Apart(Next(s, step).value.cpu)
  {
    hide Good, Exec;
  }

  lemma StepFrame(s: Sys, step: Step)
    requires Inv(s) && Next(s, step).Some?
    ensures Frame(s, Next(s, step).value) && Apart(Next(s, step).value.cpu)
  {
    hide Good, Exec, Moved, Frame, Apart;
    if step.Advance? {
      ExecMoved(s, step.p);
      MovedFrame(s, Next(s, step).value, step.p);
    } else {
      SchedFrame(s, step);
    }
  }

  lemma NextInv(s: Sys, step: Step)
    requires Inv(s) && Next(s, step).Some?
    ensures Inv(Next(s, step).value)
  {
    hide Good, Next, Apart;
    var t := Next(s, step).value;
    StepFrame(s, step);
    forall p | 0 <= p < |t.pc| ensures Good(t, p) {
      StepGood(s, step, p);
    }
  }

  lemma {:induction false} RunInv(n: nat, steps: seq<Step>)
    requires Run(Init(n), steps).Some?
    ensures Inv(Run(Init(n), steps).value)
  {
    if steps == [] {
      InitInv(n);
    } else {
      RunInv(n, steps[..|steps| - 1]);
      NextInv(Run(Init(n), steps[..|steps| - 1]).value, steps[|steps| - 1]);
    }
  }

  // ---- the theorems ----

  /** A process between having set `locked` and clearing it. */
  predicate InCritical(s: Sys, p: nat)
    requires s.Proc(p)
  {
    Owns(s.pc[p])
  }

  lemma Exclusive(s: Sys, p: nat, q: nat)
    requires Inv(s)
    ensures s.Proc(p) && s.Proc(q) && InCritical(s, p) && InCritical(s, q) ==> p == q
    ensures s.Proc(p) && InCritical(s, p) ==> s.locked
    ensures s.locked ==> exists r :: 0 <= r < |s.pc| && s.Proc(r) && InCritical(s, r)
    ensures s.Proc(p) ==>
              (s.locked && s.pid == Some(p) <==>
               s.pc[p].AcqDone? || s.pc[p].Holding? || s.pc[p].RelLock? || s.pc[p].ClrLocked?)
  {
    hide Inv, Promised;
    if s.Proc(p) && s.Proc(q) { Members(s, p, q); }
    if s.Proc(p) { Members(s, p, p); }
    if s.locked {
      OwnerInside(s);
      assert s.Proc(s.owner.value) && InCritical(s, s.owner.value);
    }
  }

  lemma OwnerInside(s: Sys)
    requires Inv(s) && s.locked
    ensures s.owner.Some? && s.Proc(s.owner.value) && InCritical(s, s.owner.value)
  {
    assert Good(s, s.owner.value);
  }

  /** In every reachable state at most one process holds the lock, `locked` says whether one
      does, and what holdingsleep asks for, `locked` with the pid of p, holds exactly while p
      is between having set its pid and clearing `locked`. */
  lemma MutualExclusion(n: nat, steps: seq<Step>, p: nat, q: nat)
    requires Run(Init(n), steps).Some?
    ensures var s := Run(Init(n), steps).value;
            && (s.Proc(p) && s.Proc(q) && InCritical(s, p) && InCritical(s, q) ==> p == q)
            && (s.Proc(p) && InCritical(s, p) ==> s.locked)
            && (s.locked ==> exists r :: 0 <= r < |s.pc| && s.Proc(r) && InCritical(s, r))
            && (s.Proc(p) ==>
                  (s.locked && s.pid == Some(p) <==>
                   s.pc[p].AcqDone? || s.pc[p].Holding? || s.pc[p].RelLock? || s.pc[p].ClrLocked?))
  {
    hide Run;
    RunInv(n, steps);
    Exclusive(Run(Init(n), steps).value, p, q);
  }

  /** No lost wakeup: whenever the lock is free while p sleeps on it, or is about to without
      looking again, another process is on a cpu inside releasesleep and its wakeup has not
      reached p yet. */
  lemma NoLostWakeup(n: nat, steps: seq<Step>, p: nat)
    requires Run(Init(n), steps).Some?
    ensures var s := Run(Init(n), steps).value;
            s.Proc(p) && Waits(s, p) && !s.locked ==>
            exists q :: 0 <= q < |s.pc| && s.Proc(q) && q != p && WillWake(s.pc[q], p) && s.cpu[q].Some?
  {
    hide Run, Inv;
    var s := Run(Init(n), steps).value;
    RunInv(n, steps);
    if s.Proc(p) && Waits(s, p) && !s.locked {
      Members(s, p, p);
      assert s.Proc(s.lk.value) && s.lk.value != p && WillWake(s.pc[s.lk.value], p) && s.cpu[s.lk.value].Some?;
    }
  }

  /** When the lock's spinlock is free, nobody sleeps on a free lock. */
  lemma NobodyLeftBehind(n: nat, steps: seq<Step>, p: nat)
    requires Run(Init(n), steps).Some?
    ensures var s := Run(Init(n), steps).value;
            s.Proc(p) && s.lk.None? && s.st[p] == Sleeping(true) ==> s.locked
  {
    hide Run, Inv;
    RunInv(n, steps);
    if Run(Init(n), steps).value.Proc(p) { Members(Run(Init(n), steps).value, p, p); }
  }

  /** A process never holds a spinlock while it is off the cpu, and no cpu runs two processes. */
  lemma SpinlocksOnCpu(n: nat, steps: seq<Step>, p: nat, q: nat)
    requires Run(Init(n), steps).Some?
    ensures var s := Run(Init(n), steps).value;
            && (s.Proc(p) && (s.lk == Some(p) || s.pt == Some(p)) ==> s.cpu[p].Some?)
            && (s.Proc(p) && s.Proc(q) && p != q && s.cpu[p].Some? ==> s.cpu[p] != s.cpu[q])
  {
    hide Run, Good;
    var s := Run(Init(n), steps).value;
    RunInv(n, steps);
    if s.Proc(p) { Members(s, p, p); }
  }
}
