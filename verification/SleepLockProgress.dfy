/** A sleeplock is not only safe: every process can make its next move unless a spinlock it
    takes is held, and whoever is in acquiresleep can still get the lock, on a single cpu. */
module SleepLockProgress {
  import opened Basics
  import opened SleepLock

  // ---- which steps are possible ----

  predicate TakesLk(c: Pc) { c.AcqLock? || c.Reacq? || c.RelLock? }

  predicate TakesPt(c: Pc) { c.SleepAcq? || c.WakeAcq? }

  /** A process on a cpu can execute its statement unless it takes a spinlock that is held,
      or it is outside acquiresleep and releasesleep. */
  lemma Enabled(s: Sys, p: nat)
    requires Inv(s) && s.Proc(p) && s.cpu[p].Some?
    ensures Next(s, Advance(p)).Some? <==>
            && !s.pc[p].Idle? && !s.pc[p].Holding?
            && (TakesLk(s.pc[p]) ==> s.lk.None?) && (TakesPt(s.pc[p]) ==> s.pt.None?)
  {
    hide Inv;
    Members(s, p, p);
  }

  /** So nobody is ever stuck: in every reachable state a process on a cpu can go on as soon as
      the spinlock it wants is free, and a runnable one off the cpu, just woken ones included,
      can be put on an idle cpu as soon as ptable.lock is free. */
  lemma NobodyStuck(n: nat, steps: seq<Step>, p: nat, c: nat)
    requires Run(Init(n), steps).Some? && p < n
    ensures var s := Run(Init(n), steps).value;
            && s.Proc(p)
            && (s.cpu[p].Some? && !s.pc[p].Idle? && !s.pc[p].Holding? &&
                (TakesLk(s.pc[p]) ==> s.lk.None?) && (TakesPt(s.pc[p]) ==> s.pt.None?) ==>
                  Next(s, Advance(p)).Some?)
            && (s.cpu[p].Some? && s.pc[p].Idle? ==> Next(s, Enter(p)).Some?)
            && (s.cpu[p].Some? && s.pc[p].Holding? ==> Next(s, Leave(p)).Some?)
            && (s.cpu[p].None? && s.st[p].Runnable? && s.pt.None? && Some(c) !in s.cpu ==>
                  Next(s, Dispatch(p, c)).Some?)
  {
    hide Run, Inv, Exec;
    var s := Run(Init(n), steps).value;
    RunInv(n, steps);
    SameProcesses(n, steps);
    InvShape(s);
    if s.cpu[p].Some? { Enabled(s, p); }
  }

  /** Nor is anything else that can happen left out: whenever ptable.lock is free an interrupt
      can take a process that holds no spinlock off its cpu, a process outside the two functions
      can block elsewhere, and any sleeper can be killed or, if it sleeps elsewhere, woken. None
      of this touches the lock or where the processes are. */
  lemma Environment(s: Sys, p: nat)
    requires Inv(s) && s.Proc(p) && s.pt.None?
    ensures s.cpu[p].Some? && s.lk != Some(p) ==>
              Next(s, Preempt(p)) == Some(s.(st := s.st[p := Runnable], cpu := s.cpu[p := None]))
    ensures s.cpu[p].Some? && (s.pc[p].Idle? || s.pc[p].Holding?) ==>
              Next(s, BlockElsewhere(p)) == Some(s.(st := s.st[p := Sleeping(false)], cpu := s.cpu[p := None]))
    ensures s.st[p].Sleeping? ==> Next(s, Kill(p)) == Some(s.(st := s.st[p := Runnable]))
    ensures s.st[p] == Sleeping(false) ==> Next(s, WakeElsewhere(p)) == Some(s.(st := s.st[p := Runnable]))
  {
    hide Inv, Exec;
    Members(s, p, p);
  }

  lemma InvShape(s: Sys)
    requires Inv(s)
    ensures |s.st| == |s.pc| == |s.cpu|
    ensures InRange(s.lk, |s.pc|) && InRange(s.pt, |s.pc|) && InRange(s.owner, |s.pc|)
  {}

  lemma {:induction false} SameProcesses(n: nat, steps: seq<Step>)
    requires Run(Init(n), steps).Some?
    ensures |Run(Init(n), steps).value.pc| == n
  {
    if steps != [] {
      SameProcesses(n, steps[..|steps| - 1]);
      RunInv(n, steps[..|steps| - 1]);
      hide Inv, Next;
      StepFrame(Run(Init(n), steps[..|steps| - 1]).value, steps[|steps| - 1]);
    }
  }

  // ---- runs the scheduler can choose ----

  /** A step in which nobody new asks for the lock, nobody blocks or is killed, and cpu 0 is
      the only one that is given to a process. */
  predicate Chosen(step: Step) {
    || step.Advance? || step.Leave? || step.Preempt? || step.WakeElsewhere?
    || (step.Dispatch? && step.c == 0)
  }

  /** Such steps lead from s to t. */
  ghost predicate Leads(s: Sys, t: Sys) {
    exists more: seq<Step> :: (forall i :: 0 <= i < |more| ==> Chosen(more[i])) && Run(s, more) == Some(t)
  }

  lemma LeadsNowhere(s: Sys)
    ensures Leads(s, s)
  {
    assert Run(s, []) == Some(s);
  }

  lemma LeadsStep(s: Sys, step: Step)
    requires Chosen(step) && Next(s, step).Some?
    ensures Leads(s, Next(s, step).value)
  {
    hide Next;
    var more := [step];
    assert more[..0] == [];
    assert Run(s, []) == Some(s);
    assert Run(s, more) == Next(s, step);
  }

  lemma {:induction false} RunJoins(s: Sys, a: seq<Step>, b: seq<Step>)
    requires Run(s, a).Some?
    ensures Run(s, a + b) == Run(Run(s, a).value, b)
  {
    hide Next;
    if b == [] {
      assert a + b == a;
    } else {
      var c := a + b;
      assert c[..|c| - 1] == a + b[..|b| - 1];
      RunJoins(s, a, b[..|b| - 1]);
    }
  }

  lemma LeadsTrans(s: Sys, t: Sys, u: Sys)
    requires Leads(s, t) && Leads(t, u)
    ensures Leads(s, u)
  {
    hide Run;
    var a: seq<Step> :| (forall i :: 0 <= i < |a| ==> Chosen(a[i])) && Run(s, a) == Some(t);
    var b: seq<Step> :| (forall i :: 0 <= i < |b| ==> Chosen(b[i])) && Run(t, b) == Some(u);
    RunJoins(s, a, b);
    assert forall i :: 0 <= i < |a + b| ==> Chosen((a + b)[i]);
  }

  /** One more step of such a run. */
  lemma Extend(s: Sys, t: Sys, step: Step) returns (u: Sys)
    requires Leads(s, t) && Inv(t) && Chosen(step) && Next(t, step).Some?
    ensures u == Next(t, step).value && Leads(s, u) && Inv(u)
  {
    hide Leads, Inv, Next;
    u := Next(t, step).value;
    LeadsStep(t, step);
    LeadsTrans(s, t, u);
    NextInv(t, step);
  }

  // ---- letting go of the spinlocks ----

  predicate Quiet(s: Sys) { s.lk.None? && s.pt.None? }

  /** In acquiresleep or past it; the other statements are those of releasesleep and Idle. */
  predicate Trying(c: Pc) {
    || c.AcqLock? || c.Test? || c.SleepAcq? || c.SleepRel? || c.GoSleep? || c.Switch? || c.Asleep?
    || c.SleepDone? || c.Reacq? || c.SetLocked? || c.SetPid? || c.AcqDone? || c.Holding?
  }

  /** How many statements a process executes at most before it holds no spinlock. */
  function Work(c: Pc, n: nat): nat {
    match c
    case Test => 6
    case SleepAcq => 5
    case SleepRel => 4
    case GoSleep => 3
    case Switch => 2
    case SleepDone => 1
    case SetLocked => 3
    case SetPid => 2
    case AcqDone => 1
    case ClrLocked => n + 6
    case ClrPid => n + 5
    case WakeAcq => n + 4
    case Scan(i) => if i < n then n - i + 3 else 3
    case WakeRel => 2
    case RelDone => 1
    case _ => 0
  }

  /** What the holders of the two spinlocks have left to do. */
  function Left(s: Sys): nat
    requires InRange(s.lk, |s.pc|) && InRange(s.pt, |s.pc|)
  {
    (if s.pt.Some? then Work(s.pc[s.pt.value], |s.pc|) else 0)
    + (if s.lk.Some? && s.lk != s.pt then Work(s.pc[s.lk.value], |s.pc|) else 0)
  }

  /** What a statement of a process that holds a spinlock does, as far as it matters here. */
  predicate Nearer(s: Sys, t: Sys, q: nat) {
    && s.Proc(q) && t.Proc(q) && t.pc == s.pc[q := t.pc[q]]
    && Work(t.pc[q], |s.pc|) < Work(s.pc[q], |s.pc|) && (Trying(t.pc[q]) <==> Trying(s.pc[q]))
    && (t.lk == s.lk || (t.lk == None && s.lk == Some(q)))
    && (t.pt == s.pt || (t.pt == None && s.pt == Some(q)) || (t.pt == Some(q) && s.pt == None && s.lk == Some(q)))
    && (t.locked && !s.locked ==> s.lk == Some(q) && Trying(s.pc[q]))
  }

  lemma AcquireNearer(s: Sys, q: nat)
    requires s.Proc(q) && LocksAt(s, q) && HoldsLk(s.pc[q]) && ExecAcquire(s, q).Some?
    ensures Nearer(s, ExecAcquire(s, q).value, q)
  {}

  lemma SleepNearer(s: Sys, q: nat)
    requires s.Proc(q) && LocksAt(s, q) && (HoldsLk(s.pc[q]) || HoldsPt(s.pc[q])) && ExecSleep(s, q).Some?
    ensures Nearer(s, ExecSleep(s, q).value, q)
  {}

  lemma ReleaseNearer(s: Sys, q: nat)
    requires s.Proc(q) && LocksAt(s, q) && HoldsLk(s.pc[q]) && ExecRelease(s, q).Some?
    ensures Nearer(s, ExecRelease(s, q).value, q)
  {
    hide LocksAt, ExecRelease, ReleaseMoves, Nearer;
    ReleaseIs(s, q);
    ReleaseMovesOne(s, q);
    ReleaseMovesNearer(s, ExecRelease(s, q).value, q);
  }

  lemma ReleaseMovesOne(s: Sys, q: nat)
    requires s.Proc(q) && ExecRelease(s, q).Some?
    ensures ExecRelease(s, q).value.Proc(q) && ExecRelease(s, q).value.pc == s.pc[q := ExecRelease(s, q).value.pc[q]]
  {}

  lemma ReleaseMovesNearer(s: Sys, t: Sys, q: nat)
    requires s.Proc(q) && t.Proc(q) && LocksAt(s, q) && HoldsLk(s.pc[q]) && ReleaseMoves(s, t, q)
    requires t.pc == s.pc[q := t.pc[q]]
    ensures Nearer(s, t, q)
  {}

  lemma HolderNearer(s: Sys, q: nat)
    requires Inv(s) && s.Proc(q) && (s.pt == Some(q) || (s.lk == Some(q) && s.pt == None))
    ensures Next(s, Advance(q)).Some? && Nearer(s, Next(s, Advance(q)).value, q)
  {
    hide Inv, Nearer, ExecAcquire, ExecSleep, ExecRelease;
    Members(s, q, q);
    Enabled(s, q);
    if ExecAcquire(s, q).Some? { AcquirePcs(s, q); AcquireNearer(s, q); }
    else if ExecSleep(s, q).Some? { SleepNearer(s, q); }
    else { ReleasePcs(s, q); ReleaseNearer(s, q); }
  }

  lemma AcquirePcs(s: Sys, q: nat)
    requires s.Proc(q) && ExecAcquire(s, q).Some? && (HoldsLk(s.pc[q]) || HoldsPt(s.pc[q]))
    ensures HoldsLk(s.pc[q])
  {}

  lemma ReleasePcs(s: Sys, q: nat)
    requires s.Proc(q) && ExecRelease(s, q).Some? && (HoldsLk(s.pc[q]) || HoldsPt(s.pc[q]))
    ensures HoldsLk(s.pc[q])
  {}

  lemma NearerLeft(s: Sys, t: Sys, q: nat)
    requires InRange(s.lk, |s.pc|) && InRange(s.pt, |s.pc|)
    requires Nearer(s, t, q) && (s.pt == Some(q) || (s.lk == Some(q) && s.pt == None))
    ensures InRange(t.lk, |t.pc|) && InRange(t.pt, |t.pc|) && Left(t) < Left(s)
  {
    hide Work, Trying;
  }

  /** Whoever holds a spinlock can go on until it holds none. Nobody enters or leaves the lock
      meanwhile, and it is only taken by a holder that is about to. */
  lemma {:induction false} Quiesce(s: Sys) returns (t: Sys)
    requires Inv(s)
    ensures Leads(s, t) && Inv(t) && Quiet(t) && |t.pc| == |s.pc|
    ensures forall r :: 0 <= r < |s.pc| ==> (Trying(t.pc[r]) <==> Trying(s.pc[r]))
    ensures t.locked && !s.locked ==> s.lk.Some? && s.lk.value < |s.pc| && Trying(s.pc[s.lk.value])
    decreases Left(s)
  {
    hide Leads, Inv, Trying, Work, Next;
    InvShape(s);
    LeadsNowhere(s);
    t := s;
    if !Quiet(s) {
      var q := if s.pt.Some? then s.pt.value else s.lk.value;
      HolderNearer(s, q);
      var u := Extend(s, s, Advance(q));
      InvShape(u);
      NearerLeft(s, u, q);
      t := Quiesce(u);
      LeadsTrans(s, u, t);
    }
  }

  /** What a process can be doing when no spinlock is held. */
  lemma QuietPc(s: Sys, p: nat)
    requires Inv(s) && Quiet(s) && s.Proc(p)
    ensures Trying(s.pc[p]) ==> s.pc[p].AcqLock? || s.pc[p].Asleep? || s.pc[p].Reacq? || s.pc[p].Holding?
    ensures !Trying(s.pc[p]) ==> s.pc[p].Idle? || s.pc[p].RelLock?
    ensures s.cpu[p].Some? ==> !s.pc[p].Asleep? && Interruptible(s.pc[p])
    ensures s.st[p].Running? ==> s.cpu[p].Some?
    ensures s.st[p] == Sleeping(true) ==> s.pc[p].Asleep? && s.locked
    ensures s.pc[p].Holding? || s.pc[p].RelLock? <==> s.owner == Some(p)
  {
    hide Inv;
    Members(s, p, p);
  }

  // ---- getting a process on the cpu ----

  /** The same lock and the same statements. */
  predicate SameLock(s: Sys, t: Sys) {
    t.pc == s.pc && t.lk == s.lk && t.pt == s.pt && t.locked == s.locked && t.owner == s.owner
  }

  /** Cpu 0 is free, or the process on it can be preempted. */
  lemma FreeCpu(s: Sys, p: nat) returns (t: Sys)
    requires Inv(s) && Quiet(s) && s.Proc(p) && s.cpu[p].None?
    ensures Leads(s, t) && Inv(t) && SameLock(s, t) && Some(0) !in t.cpu
    ensures t.Proc(p) && t.cpu[p].None? && t.st[p] == s.st[p]
  {
    hide Leads, Good;
    LeadsNowhere(s);
    t := s;
    if r: nat :| r < |s.cpu| && s.cpu[r] == Some(0) {
      QuietPc(s, r);
      t := Extend(s, s, Preempt(r));
      assert forall i :: 0 <= i < |t.cpu| && i != r ==> t.cpu[i] == s.cpu[i] != Some(0);
    }
  }

  lemma PutOnCpu(s: Sys, p: nat) returns (t: Sys)
    requires Inv(s) && Quiet(s) && s.Proc(p) && s.st[p] != Sleeping(true)
    ensures Leads(s, t) && Inv(t) && Quiet(t) && t.Proc(p) && t.cpu[p].Some?
    ensures t.pc == s.pc[p := if s.pc[p].Asleep? then Reacq else s.pc[p]]
    ensures t.locked == s.locked && t.owner == s.owner
  {
    hide Leads, Inv, Exec;
    QuietPc(s, p);
    LeadsNowhere(s);
    t := s;
    if s.cpu[p].None? {
      var u := FreeCpu(s, p);
      if u.st[p].Sleeping? {
        u := Extend(s, u, WakeElsewhere(p));
      }
      t := Extend(s, u, Dispatch(p, 0));
      if s.pc[p].Asleep? {
        var v := t;
        Finish(v, p);
        t := Extend(s, v, Advance(p));
      }
    }
  }

  /** The end of sleep. */
  lemma Finish(s: Sys, p: nat)
    requires s.Proc(p) && s.cpu[p].Some? && s.pc[p].SleepDone?
    ensures Next(s, Advance(p)) == Some(s.Goto(p, Reacq).(pt := None))
  {}

  // ---- the lock changes hands ----

  /** Whoever holds the lock can be made to give it back. */
  lemma GiveBack(s: Sys) returns (t: Sys)
    requires Inv(s) && Quiet(s) && s.locked
    ensures Leads(s, t) && Inv(t) && Quiet(t) && !t.locked && |t.pc| == |s.pc|
    ensures forall r :: 0 <= r < |s.pc| && Some(r) != s.owner ==> (Trying(t.pc[r]) <==> Trying(s.pc[r]))
    ensures forall r :: 0 <= r < |s.pc| && Some(r) == s.owner ==> !Trying(t.pc[r])
  {
    hide Leads, Inv, Exec, LocksAt, RunsAt, Promised;
    OwnerInside(s);
    var o := s.owner.value;
    OwnerQuiet(s, o);
    var u := PutOnCpu(s, o);
    if u.pc[o].Holding? {
      u := Extend(s, u, Leave(o));
    }
    ReleaseBegins(u, o);
    u := Extend(s, u, Advance(o));
    u := Extend(s, u, Advance(o));
    t := Quiesce(u);
    LeadsTrans(s, u, t);
  }

  lemma OwnerQuiet(s: Sys, o: nat)
    requires Inv(s) && Quiet(s) && s.owner == Some(o) && s.Proc(o)
    ensures s.pc[o].Holding? || s.pc[o].RelLock?
    ensures s.st[o] != Sleeping(true)
  {
    hide Inv;
    Members(s, o, o);
  }

  lemma ReleaseBegins(s: Sys, o: nat)
    requires s.Proc(o) && s.cpu[o].Some? && s.pc[o].RelLock? && s.lk.None?
    ensures var t := s.Goto(o, ClrLocked).(lk := Some(o));
            && Next(s, Advance(o)) == Some(t)
            && Next(t, Advance(o)) == Some(t.Goto(o, ClrPid).(locked := false, owner := None))
  {}

  /** A free lock can be had. */
  lemma Take(s: Sys, p: nat) returns (t: Sys)
    requires Inv(s) && Quiet(s) && !s.locked && s.Proc(p) && Trying(s.pc[p])
    ensures Leads(s, t) && t.Proc(p) && t.pc[p].Holding?
  {
    hide Leads, Inv, Exec;
    QuietPc(s, p);
    NotHeld(s, p);
    var u := PutOnCpu(s, p);
    AcquireRuns5(u, p);
    u := Extend(s, u, Advance(p));
    u := Extend(s, u, Advance(p));
    u := Extend(s, u, Advance(p));
    u := Extend(s, u, Advance(p));
    t := Extend(s, u, Advance(p));
  }

  lemma NotHeld(s: Sys, p: nat)
    requires Inv(s) && !s.locked && s.Proc(p)
    ensures !s.pc[p].Holding?
  {
    hide Inv;
    Members(s, p, p);
  }

  /** acquiresleep on a free lock, from either of its calls of acquire. */
  lemma AcquireRuns5(s: Sys, p: nat)
    requires s.Proc(p) && s.cpu[p].Some? && (s.pc[p].AcqLock? || s.pc[p].Reacq?) && s.lk.None? && !s.locked
    ensures var s1 := s.Goto(p, Test).(lk := Some(p));
            var s2 := s1.Goto(p, SetLocked);
            var s3 := s2.Goto(p, SetPid).(locked := true, owner := Some(p));
            var s4 := s3.Goto(p, AcqDone).(pid := Some(p));
            var s5 := s4.Goto(p, Holding).(lk := None);
            && Next(s, Advance(p)) == Some(s1) && Next(s1, Advance(p)) == Some(s2)
            && Next(s2, Advance(p)) == Some(s3) && Next(s3, Advance(p)) == Some(s4)
            && Next(s4, Advance(p)) == Some(s5)
  {}

  // ---- the theorems ----

  lemma GetsIn(s: Sys, p: nat) returns (t: Sys)
    requires Inv(s) && s.Proc(p) && Trying(s.pc[p])
    ensures Leads(s, t) && t.Proc(p) && t.pc[p].Holding?
  {
    hide Leads, Inv, Trying;
    var u := Quiesce(s);
    InvShape(u);
    t := u;
    if !u.pc[p].Holding? {
      if u.locked {
        QuietPc(u, p);
        var v := GiveBack(u);
        InvShape(v);
        LeadsTrans(s, u, v);
        u := v;
      }
      t := Take(u, p);
      LeadsTrans(s, u, t);
    }
  }

  /** In every reachable state a process in acquiresleep, asleep on the lock included, can
      still get it: some continuation, with no kill and one cpu, ends with p holding it. */
  lemma CanAcquire(n: nat, steps: seq<Step>, p: nat)
    requires Run(Init(n), steps).Some? && p < |Run(Init(n), steps).value.pc|
    requires Trying(Run(Init(n), steps).value.pc[p])
    ensures exists more: seq<Step> ::
              && (forall i :: 0 <= i < |more| ==> Chosen(more[i]))
              && Run(Init(n), steps + more).Some? && Run(Init(n), steps + more).value.Proc(p)
              && Run(Init(n), steps + more).value.pc[p] == Holding
  {
    hide Run, Inv;
    var s := Run(Init(n), steps).value;
    RunInv(n, steps);
    InvShape(s);
    var t := GetsIn(s, p);
    var more: seq<Step> :| (forall i :: 0 <= i < |more| ==> Chosen(more[i])) && Run(s, more) == Some(t);
    RunJoins(Init(n), steps, more);
  }

  lemma GetsOut(s: Sys, p: nat) returns (t: Sys)
    requires Inv(s) && s.Proc(p) && !Trying(s.pc[p])
    ensures Leads(s, t) && t.Proc(p) && t.pc[p].Idle?
  {
    hide Leads, Inv, Trying;
    t := Quiesce(s);
    InvShape(t);
    QuietPc(t, p);
    if !t.pc[p].Idle? {
      var u := t;
      LockedBy(u, p);
      t := GiveBack(u);
      InvShape(t);
      LeadsTrans(s, u, t);
      QuietPc(t, p);
      if !t.pc[p].Idle? { LockedBy(t, p); }
    }
  }

  lemma LockedBy(s: Sys, p: nat)
    requires Inv(s) && s.owner == Some(p)
    ensures s.locked
  {}

  /** And whoever is in releasesleep can finish it. */
  lemma CanRelease(n: nat, steps: seq<Step>, p: nat)
    requires Run(Init(n), steps).Some? && p < |Run(Init(n), steps).value.pc|
    requires !Trying(Run(Init(n), steps).value.pc[p])
    ensures exists more: seq<Step> ::
              && (forall i :: 0 <= i < |more| ==> Chosen(more[i]))
              && Run(Init(n), steps + more).Some? && Run(Init(n), steps + more).value.Proc(p)
              && Run(Init(n), steps + more).value.pc[p] == Idle
  {
    hide Run, Inv;
    var s := Run(Init(n), steps).value;
    RunInv(n, steps);
    InvShape(s);
    var t := GetsOut(s, p);
    var more: seq<Step> :| (forall i :: 0 <= i < |more| ==> Chosen(more[i])) && Run(s, more) == Some(t);
    RunJoins(Init(n), steps, more);
  }
}
