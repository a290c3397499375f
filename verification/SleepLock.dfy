/** Sleep locks: acquiresleep and releasesleep of src/sleeplock.c with sleep and wakeup of src/proc.c taken apart
    into the steps between which other processors run.  Any number of processes share one sleep lock. */
module SleepLock {

  /** Where a process is.  acquiresleep: WantLk, Test, Take, Unlock, and, when the lock is taken, the steps of sleep:
      SleepWant (acquire ptable.lock), SleepRelease (release lk), SleepMark (state = SLEEPING), SleepSched (sched),
      Asleep, Tidy (chan = 0), PtUnlock (release ptable.lock), and back to WantLk.  releasesleep: RelWant, Clear,
      and the steps of wakeup: WakeWant, Wake, WakeDone; then RelUnlock. */
  datatype Pc = Idle | WantLk | Test | Take | Unlock | Holding
              | SleepWant | SleepRelease | SleepMark | SleepSched | Asleep | Tidy | PtUnlock
              | RelWant | Clear | WakeWant | Wake | WakeDone | RelUnlock

  datatype Run = Running | Runnable | Sleeping

  /** `on`: the process is executing on some processor. */
  datatype Proc = Proc(pc: Pc, run: Run, on: bool)

  /** Who holds a spinlock: nobody, a scheduler loop, or a process. */
  datatype Owner = Nobody | Scheduler | Held(p: nat)

  datatype Sys = Sys(procs: seq<Proc>, lk: Owner, pt: Owner, locked: bool, pid: nat)

  predicate HoldsLk(pc: Pc) {
    (pc.Test? || pc.Take? || pc.Unlock? || pc.SleepWant? || pc.SleepRelease? || pc.Clear? || pc.WakeWant?
      || pc.Wake? || pc.WakeDone? || pc.RelUnlock?)
  }

  predicate HoldsPt(pc: Pc) {
    (pc.SleepRelease? || pc.SleepMark? || pc.SleepSched? || pc.Tidy? || pc.PtUnlock? || pc.Wake? || pc.WakeDone?)
  }

  /** From the assignment that takes the sleep lock to the one that gives it up. */
  predicate HoldsSleepLock(pc: Pc) {
    (pc.Unlock? || pc.Holding? || pc.RelWant? || pc.Clear?)
  }

  datatype Label =
    | Call(p: nat)              // an idle process calls acquiresleep
    | Return(p: nat)            // the holder calls releasesleep
    | Exec(p: nat)              // the next step of a process inside one of them
    | Preempt(p: nat)           // a timer interrupt: yield
    | SchedTake | SchedRelease  // a scheduler loop takes and gives back ptable.lock
    | Dispatch(p: nat)          // ... and in between switches to a process
    | Kill(p: nat)

  /** Can the step be taken?  Acquiring a spinlock waits until nobody holds it. */
  predicate Enabled(s: Sys, l: Label) {
    match l
    case Call(p) => p < |s.procs| && s.procs[p].on && s.procs[p].pc == Idle
    case Return(p) => p < |s.procs| && s.procs[p].on && s.procs[p].pc == Holding
    case Exec(p) =>
      && p < |s.procs| && s.procs[p].on && (!s.procs[p].pc.Idle? && !s.procs[p].pc.Holding? && !s.procs[p].pc.Asleep?)
      && ((s.procs[p].pc.WantLk? || s.procs[p].pc.RelWant?) ==> s.lk == Nobody)
      && ((s.procs[p].pc.SleepWant? || s.procs[p].pc.WakeWant?) ==> s.pt == Nobody)
    case Preempt(p) =>
      p < |s.procs| && s.procs[p].on && !HoldsLk(s.procs[p].pc) && !HoldsPt(s.procs[p].pc) && s.pt == Nobody
    case SchedTake => s.pt == Nobody
    case SchedRelease => s.pt == Scheduler
    case Dispatch(p) => s.pt == Scheduler && p < |s.procs| && s.procs[p].run == Runnable && !s.procs[p].on
    case Kill(p) => p < |s.procs| && s.pt == Nobody
  }

  function At(s: Sys, p: nat, pc: Pc): seq<Proc>
    requires p < |s.procs|
  {
    s.procs[p := s.procs[p].(pc := pc)]
  }

  /** wakeup1: every process that sleeps on the lock becomes RUNNABLE. */
  function Wakeup(procs: seq<Proc>): (r: seq<Proc>)
    ensures |r| == |procs|
    ensures forall i | 0 <= i < |procs| ::
              r[i] == if procs[i].run == Sleeping then procs[i].(run := Runnable) else procs[i]
  {
    if |procs| == 0 then []
    else
      var q := procs[|procs| - 1];
      Wakeup(procs[..|procs| - 1]) + [if q.run == Sleeping then q.(run := Runnable) else q]
  }

  function DoExec(s: Sys, p: nat): Sys
    requires Enabled(s, Exec(p))
  {
    match s.procs[p].pc
    case WantLk => s.(procs := At(s, p, Test), lk := Held(p))
    case Test => s.(procs := At(s, p, if s.locked then SleepWant else Take))
    case Take => s.(procs := At(s, p, Unlock), locked := true, pid := p)
    case Unlock => s.(procs := At(s, p, Holding), lk := Nobody)
    case SleepWant => s.(procs := At(s, p, SleepRelease), pt := Held(p))
    case SleepRelease => s.(procs := At(s, p, SleepMark), lk := Nobody)
    case SleepMark => s.(procs := s.procs[p := Proc(SleepSched, Sleeping, true)])
    case SleepSched => s.(procs := s.procs[p := Proc(Asleep, s.procs[p].run, false)], pt := Scheduler)
    case Tidy => s.(procs := At(s, p, PtUnlock))
    case PtUnlock => s.(procs := At(s, p, WantLk), pt := Nobody)
    case RelWant => s.(procs := At(s, p, Clear), lk := Held(p))
    case Clear => s.(procs := At(s, p, WakeWant), locked := false, pid := 0)
    case WakeWant => s.(procs := At(s, p, Wake), pt := Held(p))
    case Wake => s.(procs := Wakeup(At(s, p, WakeDone)))
    case WakeDone => s.(procs := At(s, p, RelUnlock), pt := Nobody)
    case RelUnlock => s.(procs := At(s, p, Idle), lk := Nobody)
  }

  function Next(s: Sys, l: Label): Sys
    requires Enabled(s, l)
  {
    match l
    case Call(p) => s.(procs := At(s, p, WantLk))
    case Return(p) => s.(procs := At(s, p, RelWant))
    case Exec(p) => DoExec(s, p)
    case Preempt(p) => s.(procs := s.procs[p := Proc(s.procs[p].pc, Runnable, false)], pt := Scheduler)
    case SchedTake => s.(pt := Scheduler)
    case SchedRelease => s.(pt := Nobody)
    case Dispatch(p) =>
      if s.procs[p].pc == Asleep
      then s.(procs := s.procs[p := Proc(Tidy, Running, true)], pt := Held(p))
      else s.(procs := s.procs[p := Proc(s.procs[p].pc, Running, true)], pt := Nobody)
    case Kill(p) =>
      if s.procs[p].run == Sleeping then s.(procs := s.procs[p := s.procs[p].(run := Runnable)]) else s
  }

  // ---- the invariant --------------------------------------------------------------------------------

  /** The releaser that has cleared the lock but not yet woken the sleepers. */
  predicate AboutToWake(s: Sys) {
    s.lk.Held? && s.lk.p < |s.procs| && (s.procs[s.lk.p].pc.WakeWant? || s.procs[s.lk.p].pc.Wake?)
  }

  /** What holds of process p.  It has a spinlock exactly at the steps that hold it, and then it runs; it can be asleep
      only inside sleep; it has the sleep lock only if the lock says so; and while it sleeps, or is committed to
      sleeping, the lock is taken or its releaser is about to wake the sleepers. */
  ghost predicate ProcOk(s: Sys, p: nat)
    requires p < |s.procs|
  {
    var q := s.procs[p];
    && (HoldsLk(q.pc) <==> s.lk == Held(p))
    && (HoldsPt(q.pc) <==> s.pt == Held(p))
    && (HoldsLk(q.pc) || HoldsPt(q.pc) ==> q.on)
    && (q.pc.Asleep? ==> !q.on)
    && (q.run.Sleeping? ==> q.pc.SleepSched? || q.pc.Asleep?)
    && (HoldsSleepLock(q.pc) ==> s.locked && s.pid == p)
    && (q.pc.Take? || q.pc.WakeWant? || q.pc.Wake? || q.pc.WakeDone? || q.pc.RelUnlock? ==> !s.locked)
    && (q.pc.SleepWant? || q.pc.SleepRelease? ==> s.locked)
    && (q.run.Sleeping? || q.pc.SleepMark? ==> s.locked || AboutToWake(s))
  }

  ghost predicate Inv(s: Sys) {
    && (s.lk.Held? ==> s.lk.p < |s.procs|) && (s.pt.Held? ==> s.pt.p < |s.procs|) && s.lk != Scheduler
    && (s.locked ==> s.pid < |s.procs| && HoldsSleepLock(s.procs[s.pid].pc))
    && forall p: nat | p < |s.procs| :: ProcOk(s, p)
  }

  /** At the start no process is inside the lock's functions. */
  ghost predicate Init(s: Sys) {
    && s.lk == Nobody && s.pt == Nobody && !s.locked
    && forall p: nat | p < |s.procs| :: s.procs[p].pc == Idle && s.procs[p].run != Sleeping
  }

  /** The spinlock changes hands only between nobody (or a scheduler) and p. */
  predicate Passed(o1: Owner, o2: Owner, p: nat) {
    o1 == o2 || ((o1 == Held(p) || !o1.Held?) && (o2 == Held(p) || !o2.Held?))
  }

  /** A step of process p alone keeps the invariant if it leaves p in order, takes or gives back spinlocks for p only,
      changes the sleep lock only under lk and only from free to p's or from p's to free, and does not leave a
      sleeper without a holder or waker. */
  lemma Moved(s: Sys, t: Sys, p: nat)
    requires Inv(s) && p < |s.procs| == |t.procs| && t.procs == s.procs[p := t.procs[p]]
    requires ProcOk(t, p) && Passed(s.lk, t.lk, p) && Passed(s.pt, t.pt, p) && t.lk != Scheduler
    requires || (t.locked == s.locked && t.pid == s.pid)
             || (s.lk == Held(p) && !s.locked && t.locked && t.pid == p)
             || (s.lk == Held(p) && s.locked && s.pid == p && !t.locked)
    requires t.locked && t.pid == p ==> HoldsSleepLock(t.procs[p].pc)
    requires s.locked || AboutToWake(s) ==> t.locked || AboutToWake(t)
    ensures Inv(t)
  {
    hide HoldsPt, AboutToWake;
    forall q: nat | q < |t.procs| ensures ProcOk(t, q) {
      assert ProcOk(s, q);
      assert q != p ==> t.procs[q] == s.procs[q];
    }
  }

  /** wakeup1 leaves nobody asleep. */
  lemma WakeKeeps(s: Sys, p: nat)
    requires Inv(s) && Enabled(s, Exec(p)) && s.procs[p].pc == Wake
    ensures Inv(DoExec(s, p))
  {
    var t := DoExec(s, p);
    assert ProcOk(s, p);
    forall q: nat | q < |t.procs| ensures ProcOk(t, q) {
      assert ProcOk(s, q);
    }
  }

  lemma ExecKeeps(s: Sys, p: nat)
    requires Inv(s) && Enabled(s, Exec(p)) && s.procs[p].pc != Wake
    ensures Inv(DoExec(s, p))
  {
    assert ProcOk(s, p);
    Moved(s, DoExec(s, p), p);
  }

  /** A scheduler loop takes and gives back ptable.lock. */
  lemma SchedKeeps(s: Sys, l: Label)
    requires Inv(s) && Enabled(s, l) && (l.SchedTake? || l.SchedRelease?)
    ensures Inv(Next(s, l))
  {
    hide HoldsLk, HoldsPt, HoldsSleepLock;
    forall q: nat | q < |s.procs| ensures ProcOk(Next(s, l), q) {
      assert ProcOk(s, q);
    }
  }

  /** Calls, returns and preemption. */
  lemma CallKeeps(s: Sys, l: Label)
    requires Inv(s) && Enabled(s, l) && (l.Call? || l.Return? || l.Preempt?)
    ensures Inv(Next(s, l))
  {
    assert ProcOk(s, l.p);
    Moved(s, Next(s, l), l.p);
  }

  /** Dispatching and killing a process. */
  lemma WokenKeeps(s: Sys, l: Label)
    requires Inv(s) && Enabled(s, l) && (l.Dispatch? || l.Kill?)
    ensures Inv(Next(s, l))
  {
    assert ProcOk(s, l.p);
    Moved(s, Next(s, l), l.p);
  }

  lemma Step(s: Sys, l: Label)
    requires Inv(s) && Enabled(s, l)
    ensures Inv(Next(s, l))
  {
    hide Inv, Next, Enabled, DoExec;
    match l
    case Exec(p) =>
      StepExec(s, p);
    case SchedTake => SchedKeeps(s, l);
    case SchedRelease => SchedKeeps(s, l);
    case Dispatch(_) => WokenKeeps(s, l);
    case Kill(_) => WokenKeeps(s, l);
    case _ => CallKeeps(s, l);
  }

  lemma StepExec(s: Sys, p: nat)
    requires Inv(s) && Enabled(s, Exec(p))
    ensures Inv(Next(s, Exec(p)))
  {
    hide Inv, DoExec;
    if s.procs[p].pc == Wake {
      WakeKeeps(s, p);
    } else {
      ExecKeeps(s, p);
    }
  }

  // ---- whole runs -----------------------------------------------------------------------------------

  ghost predicate Reaches(s: Sys, ls: seq<Label>, t: Sys)
    decreases |ls|
  {
    if |ls| == 0 then s == t else Enabled(s, ls[0]) && Reaches(Next(s, ls[0]), ls[1..], t)
  }

  lemma {:induction false} RunKeeps(s: Sys, ls: seq<Label>, t: Sys)
    requires Inv(s) && Reaches(s, ls, t)
    ensures Inv(t)
    decreases |ls|
  {
    if |ls| > 0 {
      Step(s, ls[0]);
      RunKeeps(Next(s, ls[0]), ls[1..], t);
    }
  }

  /** No wakeup is lost: in every state of every run in which both spinlocks are free, a process that sleeps on the
      lock implies that the lock is held; and at no time do two processes hold it. */
  lemma NoLostWakeup(s: Sys, ls: seq<Label>, t: Sys)
    requires Init(s) && Reaches(s, ls, t)
    ensures t.lk == Nobody && t.pt == Nobody ==>
              forall p: nat | p < |t.procs| && t.procs[p].run == Sleeping :: t.locked
    ensures forall p: nat | p < |t.procs| && t.procs[p].run == Sleeping :: t.locked || AboutToWake(t)
    ensures t.locked ==> t.pid < |t.procs| && HoldsSleepLock(t.procs[t.pid].pc)
    ensures forall p: nat, q: nat | p < |t.procs| && q < |t.procs| && HoldsSleepLock(t.procs[p].pc)
              && HoldsSleepLock(t.procs[q].pc) :: p == q
  {
    assert Inv(s) by {
      forall p: nat | p < |s.procs| ensures ProcOk(s, p) {}
    }
    RunKeeps(s, ls, t);
    forall p: nat | p < |t.procs| && t.procs[p].run == Sleeping ensures t.locked || AboutToWake(t) {
      assert ProcOk(t, p);
    }
    forall p: nat, q: nat | p < |t.procs| && q < |t.procs| && HoldsSleepLock(t.procs[p].pc)
      && HoldsSleepLock(t.procs[q].pc)
      ensures p == q
    {
      assert ProcOk(t, p) && ProcOk(t, q);
    }
  }

  /** holdingsleep, asked by a process while lk is free, tells whether that process holds the lock. */
  lemma HoldingExact(s: Sys, ls: seq<Label>, t: Sys, p: nat)
    requires Init(s) && Reaches(s, ls, t) && p < |t.procs| && t.lk == Nobody
    ensures (t.locked && t.pid == p) <==> HoldsSleepLock(t.procs[p].pc)
  {
    NoLostWakeup(s, ls, t);
    assert Inv(s) by {
      forall p: nat | p < |s.procs| ensures ProcOk(s, p) {}
    }
    RunKeeps(s, ls, t);
    assert ProcOk(t, p);
  }

  /** No deadlock: whenever a process is on its way through acquiresleep or releasesleep and not asleep, some process
      can make its next step, or a scheduler loop is about to give ptable.lock back. */
  lemma NoDeadlock(s: Sys, ls: seq<Label>, t: Sys, p: nat)
    requires Init(s) && Reaches(s, ls, t) && p < |t.procs| && t.procs[p].on
    requires !t.procs[p].pc.Idle? && !t.procs[p].pc.Holding?
    ensures (exists q: nat | q < |t.procs| :: Enabled(t, Exec(q))) || Enabled(t, SchedRelease)
  {
    assert Inv(s) by {
      forall p: nat | p < |s.procs| ensures ProcOk(s, p) {}
    }
    RunKeeps(s, ls, t);
    assert ProcOk(t, p);
    if !Enabled(t, Exec(p)) {
      var q := if (t.procs[p].pc.WantLk? || t.procs[p].pc.RelWant?) && t.lk.Held? then t.lk.p else p;
      assert ProcOk(t, q);
      if !Enabled(t, Exec(q)) && t.pt.Held? {
        assert ProcOk(t, t.pt.p);
        assert Enabled(t, Exec(t.pt.p));
      }
    }
  }

  /** A kill gets a process out of its sleep on the lock: it is RUNNABLE, and the next scheduler loop that has
      ptable.lock can switch to it. */
  lemma KillWakes(s: Sys, ls: seq<Label>, t: Sys, p: nat)
    requires Init(s) && Reaches(s, ls, t) && Enabled(t, Kill(p)) && t.procs[p].pc.Asleep?
    ensures var u := Next(t, Kill(p));
            u.procs[p].run != Sleeping && u.pt == Nobody && (u.procs[p].run == Runnable ==>
              Enabled(u, SchedTake) && Enabled(Next(u, SchedTake), Dispatch(p)))
    ensures t.procs[p].run == Sleeping ==> Next(t, Kill(p)).procs[p].run == Runnable
  {
    assert Inv(s) by {
      forall p: nat | p < |s.procs| ensures ProcOk(s, p) {}
    }
    RunKeeps(s, ls, t);
    assert ProcOk(t, p);
  }

  /** A timer interrupt can come at any point at which the process holds no spinlock, as soon as ptable.lock is free;
      when the scheduler switches back the process is where it was, and so is everything else. */
  lemma PreemptAndBack(s: Sys, ls: seq<Label>, t: Sys, p: nat)
    requires Init(s) && Reaches(s, ls, t) && p < |t.procs| && t.procs[p].on && t.pt == Nobody && t.lk != Held(p)
    ensures Enabled(t, Preempt(p)) && Enabled(Next(t, Preempt(p)), Dispatch(p))
    ensures Next(Next(t, Preempt(p)), Dispatch(p)) == t.(procs := t.procs[p := t.procs[p].(run := Running)])
  {
    assert Inv(s) by {
      forall p: nat | p < |s.procs| ensures ProcOk(s, p) {}
    }
    RunKeeps(s, ls, t);
    assert ProcOk(t, p);
    hide Reaches;
    var u := Next(Next(t, Preempt(p)), Dispatch(p));
    assert u.procs == t.procs[p := t.procs[p].(run := Running)];
  }
}
