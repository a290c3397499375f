/** Every run of fork, exit, wait and kill: parents outlive their children, nobody sleeps in wait with a zombie to
    collect, and every pid is accounted for exactly once. */
module ExitWait {
  import opened ProcTable

  /** What the process in a slot is in the middle of: a fork, which is split where it gives up ptable.lock, or a
      wait. */
  datatype At = User | Forking(child: nat, parented: bool) | Waiting

  /** What became of a pid: it is in the table, some call of wait returned it, or its fork failed.  0 is no pid. */
  datatype Fate = NoPid | InSlot(c: nat) | Returned(k: nat) | Failed(k: nat)

  /** `forker` is, for an EMBRYO, the slot of the process that forks it; `waits` are the pids that calls of wait have
      returned so far, and `fails` those of forks that failed. */
  datatype Sys = Sys(procs: seq<Proc>, nextpid: nat, init: nat, at: seq<At>, forker: seq<nat>, fate: seq<Fate>,
                     waits: seq<nat>, fails: seq<nat>)

  predicate Live(st: State) {
    st == SLEEPING || st == RUNNABLE || st == RUNNING
  }

  datatype Label =
    | ForkAlloc(p: nat, c: nat) | ForkFail(p: nat) | ForkParent(p: nat) | ForkDone(p: nat)
    | Exit(p: nat)
    | WaitReap(p: nat, c: nat) | WaitFail(p: nat) | WaitSleep(p: nat)
    | Kill(i: nat) | Dispatch(p: nat) | Yield(p: nat) | SleepOn(p: nat, n: nat) | WakeOther(n: nat)

  predicate Sized(s: Sys) {
    |s.at| == |s.forker| == |s.procs| && s.init < |s.procs| && |s.fate| == s.nextpid
  }

  predicate Runs(s: Sys, p: nat)
    requires Sized(s)
  {
    p < |s.procs| && s.procs[p].state == RUNNING
  }

  predicate NoZombie(t: seq<Proc>, p: nat) {
    forall c | 0 <= c < |t| :: !ZombieChild(t, c, p)
  }

  predicate Enabled(s: Sys, l: Label)
    requires Sized(s)
  {
    match l
    case ForkAlloc(p, c) => Runs(s, p) && s.at[p].User? && c < |s.procs| && s.procs[c].state == UNUSED
    case ForkFail(p) => Runs(s, p) && s.at[p].Forking? && !s.at[p].parented && s.at[p].child < |s.procs|
    case ForkParent(p) => Runs(s, p) && s.at[p].Forking? && !s.at[p].parented && s.at[p].child < |s.procs|
    case ForkDone(p) => Runs(s, p) && s.at[p].Forking? && s.at[p].parented && s.at[p].child < |s.procs|
    case Exit(p) => Runs(s, p) && s.at[p].User? && p != s.init
    case WaitReap(p, c) => Runs(s, p) && !s.at[p].Forking? && ZombieChild(s.procs, c, p)
    case WaitFail(p) =>
      && Runs(s, p) && !s.at[p].Forking? && NoZombie(s.procs, p)
      && (s.procs[p].killed || forall c | 0 <= c < |s.procs| :: s.procs[c].parent != p)
    case WaitSleep(p) =>
      && Runs(s, p) && !s.at[p].Forking? && NoZombie(s.procs, p)
      && !s.procs[p].killed && exists c | 0 <= c < |s.procs| :: s.procs[c].parent == p
    case Kill(i) => i < |s.procs|
    case Dispatch(p) => p < |s.procs| && s.procs[p].state == RUNNABLE
    case Yield(p) => Runs(s, p)
    case SleepOn(p, n) => Runs(s, p) && s.at[p].User?
    case WakeOther(n) => true
  }

  function Set(s: Sys, p: nat, q: Proc): Sys
    requires p < |s.procs|
  {
    s.(procs := s.procs[p := q])
  }

  function Next(s: Sys, l: Label): (t: Sys)
    requires Sized(s) && Enabled(s, l)
    ensures Sized(t)
  {
    match l
    case ForkAlloc(p, c) =>
      Set(s, c, Born(s.procs[c], s.nextpid))
        .(nextpid := s.nextpid + 1, at := s.at[p := Forking(c, false)], forker := s.forker[c := p],
          fate := s.fate + [InSlot(c)])
    case ForkFail(p) =>
      var c := s.at[p].child;
      Set(s, c, s.procs[c].(state := UNUSED))
        .(at := s.at[p := User], fails := s.fails + [s.procs[c].pid],
          fate := if s.procs[c].pid < s.nextpid then s.fate[s.procs[c].pid := Failed(|s.fails|)] else s.fate)
    case ForkParent(p) =>
      var c := s.at[p].child;
      Set(s, c, s.procs[c].(parent := p)).(at := s.at[p := Forking(c, true)])
    case ForkDone(p) =>
      var c := s.at[p].child;
      Set(s, c, s.procs[c].(state := RUNNABLE, tickets := s.procs[p].tickets)).(at := s.at[p := User])
    case Exit(p) => s.(procs := Exited(s.procs, p, s.init))
    case WaitReap(p, c) =>
      Set(s, c, Reaped(s.procs[c]))
        .(at := s.at[p := User], waits := s.waits + [s.procs[c].pid],
          fate := if s.procs[c].pid < s.nextpid then s.fate[s.procs[c].pid := Returned(|s.waits|)] else s.fate)
    case WaitFail(p) => s.(at := s.at[p := User])
    case WaitSleep(p) => Set(s, p, s.procs[p].(state := SLEEPING, chan := Slot(p))).(at := s.at[p := Waiting])
    case Kill(i) => Set(s, i, Struck(s.procs[i]))
    case Dispatch(p) => Set(s, p, s.procs[p].(state := RUNNING, chan := NoChan, ticks := s.procs[p].ticks + 1))
    case Yield(p) => Set(s, p, s.procs[p].(state := RUNNABLE))
    case SleepOn(p, n) => Set(s, p, s.procs[p].(state := SLEEPING, chan := Other(n)))
    case WakeOther(n) => s.(procs := WakeAll(s.procs, Other(n)))
  }

  // ---- the invariant --------------------------------------------------------------------------------

  /** Slot p and its parent.  Every parent is alive; every process but init has one; a parent asleep in wait has no
      zombie child. */
  ghost predicate Family(s: Sys, p: nat)
    requires Sized(s) && p < |s.procs|
  {
    var q := s.procs[p];
    && -1 <= q.parent < |s.procs| && q.parent != p
    && (q.parent >= 0 ==> Live(s.procs[q.parent].state))
    && (p == s.init ==> Live(q.state) && q.parent == -1)
    && (p != s.init && (Live(q.state) || q.state == ZOMBIE) ==> q.parent >= 0)
    && (q.state == UNUSED ==> q.parent == -1)
    && (q.state == ZOMBIE && q.parent >= 0 ==>
          !(s.procs[q.parent].state == SLEEPING && s.procs[q.parent].chan == Slot(q.parent)))
    && (q.state == SLEEPING && q.chan.Slot? ==> q.chan.i == p && s.at[p] == Waiting)
  }

  /** Forks in progress and the embryos they make belong together. */
  ghost predicate Forks(s: Sys, p: nat)
    requires Sized(s) && p < |s.procs|
  {
    var q := s.procs[p];
    && (!Live(q.state) ==> s.at[p] == User)
    && (s.at[p].Forking? ==>
          var c := s.at[p].child;
          && c < |s.procs| && s.procs[c].state == EMBRYO && s.forker[c] == p
          && s.procs[c].parent == if s.at[p].parented then p else -1)
    && (q.state == EMBRYO ==>
          s.forker[p] < |s.procs| && s.at[s.forker[p]].Forking? && s.at[s.forker[p]].child == p)
  }

  /** Every pid ever given out has one fate, and it is the right one. */
  ghost predicate Pids(s: Sys)
    requires Sized(s)
  {
    && s.nextpid > 0 && s.fate[0] == NoPid && (forall i: nat | 0 < i < s.nextpid :: s.fate[i] != NoPid)
    && (forall p: nat | p < |s.procs| && s.procs[p].state != UNUSED ::
          s.procs[p].pid < s.nextpid && s.fate[s.procs[p].pid] == InSlot(p))
    && (forall i: nat | i < s.nextpid && s.fate[i].InSlot? ::
          s.fate[i].c < |s.procs| && s.procs[s.fate[i].c].state != UNUSED && s.procs[s.fate[i].c].pid == i)
    && (forall k: nat | k < |s.waits| :: s.waits[k] < s.nextpid && s.fate[s.waits[k]] == Returned(k))
    && (forall i: nat | i < s.nextpid && s.fate[i].Returned? :: s.fate[i].k < |s.waits| && s.waits[s.fate[i].k] == i)
    && (forall i: nat | i < s.nextpid && s.fate[i].Failed? :: s.fate[i].k < |s.fails| && s.fails[s.fate[i].k] == i)
  }

  ghost predicate Inv(s: Sys) {
    && Sized(s) && Pids(s)
    && (forall p: nat | p < |s.procs| :: Family(s, p))
    && (forall p: nat | p < |s.procs| :: Forks(s, p))
  }

  /** After userinit: one process, init, and a table of UNUSED slots. */
  ghost predicate Boot(s: Sys) {
    && Sized(s) && s.nextpid == 2 && s.fate == [NoPid, InSlot(s.init)] && s.waits == s.fails == []
    && s.procs[s.init].state == RUNNABLE && s.procs[s.init].pid == 1 && s.procs[s.init].parent == -1
    && (forall p: nat | p < |s.procs| && p != s.init :: s.procs[p].state == UNUSED && s.procs[p].parent == -1)
    && (forall p: nat | p < |s.procs| :: s.at[p] == User)
  }

  lemma BootInv(s: Sys)
    requires Boot(s)
    ensures Inv(s)
  {
  }

  /** What exit of p does to one slot. */
  function ExitSlot(q: Proc, self: bool, p: nat, parent: int, init: nat, noZombie: bool): Proc {
    var o := Orphaned(Woken(q, Slot(parent)), p, init);
    var w := if noZombie then o else Woken(o, Slot(init));
    if self then w.(state := ZOMBIE) else w
  }

  lemma ExitSlotFacts(q: Proc, self: bool, p: nat, parent: int, init: nat, noZombie: bool)
    ensures var r := ExitSlot(q, self, p, parent, init, noZombie);
            && r.pid == q.pid && r.chan == q.chan && r.killed == q.killed && r.ticks == q.ticks
            && r.parent == (if q.parent == p then init else q.parent)
            && (self ==> r.state == ZOMBIE)
            && (!self ==> r.state == q.state || (q.state == SLEEPING && r.state == RUNNABLE))
            && (!self && r.state == SLEEPING ==> q.chan != Slot(parent))
            && (!self && r.state == SLEEPING && q.chan == Slot(init) ==> noZombie)
  {
  }

  lemma ExitedAt(t: seq<Proc>, p: nat, init: nat, i: nat)
    requires p < |t| && i < |t|
    ensures Exited(t, p, init)[i] == ExitSlot(t[i], i == p, p, t[p].parent, init, NoZombie(t, p))
  {
    hide Inherited, ZombieChild, Woken, Orphaned;
    var u := WakeAll(t, Slot(t[p].parent));
    SameZombies(t, u, Slot(t[p].parent), p);
    InheritedAt(u, p, init, i);
    assert NoZombie(u, p) == NoZombie(t, p);
  }

  lemma InheritedAt(t: seq<Proc>, p: nat, init: nat, i: nat)
    requires i < |t|
    ensures Inherited(t, p, init)[i] == if NoZombie(t, p) then Orphaned(t[i], p, init)
              else Woken(Orphaned(t[i], p, init), Slot(init))
  {
    hide Woken, Orphaned, ZombieChild;
  }

  /** The same, told by what it keeps. */
  lemma ExitAt(t: seq<Proc>, p: nat, init: nat, i: nat)
    requires p < |t| && i < |t|
    ensures var q, r := t[i], Exited(t, p, init)[i];
            && r.pid == q.pid && r.chan == q.chan && r.killed == q.killed && r.ticks == q.ticks
            && r.parent == (if q.parent == p then init else q.parent)
            && (i == p ==> r.state == ZOMBIE)
            && (i != p ==> r.state == q.state || (q.state == SLEEPING && r.state == RUNNABLE))
            && (i != p && r.state == SLEEPING ==> q.chan != Slot(t[p].parent))
            && (i != p && r.state == SLEEPING && q.chan == Slot(init) ==> NoZombie(t, p))
  {
    hide Exited, ExitSlot, NoZombie;
    ExitedAt(t, p, init, i);
    ExitSlotFacts(t[i], i == p, p, t[p].parent, init, NoZombie(t, p));
  }

  lemma ExitFamily(s: Sys, t: Sys, p: nat, i: nat)
    requires Inv(s) && p < |s.procs| && s.at[p].User? && p != s.init && i < |s.procs| && Live(s.procs[p].state)
    requires t == s.(procs := Exited(s.procs, p, s.init))
    ensures Sized(t) && Family(t, i)
  {
    hide Exited, Pids, Forks;
    assert ZombieChild(s.procs, i, p) <==> s.procs[i].parent == p && s.procs[i].state == ZOMBIE;
    ExitAt(s.procs, p, s.init, i);
    ExitAt(s.procs, p, s.init, s.init);
    assert Family(s, s.init) && Family(s, p) && Family(s, i);
    if s.procs[i].parent >= 0 {
      ExitAt(s.procs, p, s.init, s.procs[i].parent);
    }
  }

  lemma ExitForks(s: Sys, t: Sys, p: nat, i: nat)
    requires Inv(s) && p < |s.procs| && s.at[p].User? && p != s.init && i < |s.procs| && Live(s.procs[p].state)
    requires t == s.(procs := Exited(s.procs, p, s.init))
    ensures Sized(t) && Forks(t, i)
  {
    hide Exited, Pids, Family;
    ExitAt(s.procs, p, s.init, i);
    assert Forks(s, i) && Forks(s, p);
    if s.at[i].Forking? {
      ExitAt(s.procs, p, s.init, s.at[i].child);
    }
  }

  lemma ExitPids(s: Sys, t: Sys, p: nat)
    requires Inv(s) && p < |s.procs| && p != s.init && Live(s.procs[p].state)
    requires t == s.(procs := Exited(s.procs, p, s.init))
    ensures Sized(t) && Pids(t)
  {
    hide Exited, Forks, Family;
    forall i: nat | i < |s.procs|
      ensures t.procs[i].pid == s.procs[i].pid && (t.procs[i].state == UNUSED <==> s.procs[i].state == UNUSED)
    {
      ExitAt(s.procs, p, s.init, i);
    }
  }

  /** Slot i changes at most between the live states, and into a sleep in wait only without a zombie child. */
  ghost predicate QuietAt(s: Sys, t: Sys, i: nat)
    requires Sized(s) && Sized(t) && i < |s.procs| == |t.procs|
  {
    var q, r := s.procs[i], t.procs[i];
    && r.pid == q.pid && r.parent == q.parent && (r.state == q.state || (Live(q.state) && Live(r.state)))
    && (t.at[i] == s.at[i] || (!s.at[i].Forking? && !t.at[i].Forking? && Live(q.state)))
    && (r.state == SLEEPING && r.chan.Slot? ==>
          r.chan.i == i && t.at[i] == Waiting && ((q.state == SLEEPING && q.chan == r.chan) || NoZombie(s.procs, i)))
  }

  lemma Quiet(s: Sys, t: Sys)
    requires Inv(s) && t == s.(procs := t.procs, at := t.at) && Sized(t) && |t.procs| == |s.procs|
    requires forall i: nat | i < |s.procs| :: QuietAt(s, t, i)
    ensures Inv(t)
  {
    forall i: nat | i < |t.procs| ensures Family(t, i) {
      hide Pids, Forks;
      assert Family(s, i) && QuietAt(s, t, i);
      if s.procs[i].parent >= 0 {
        assert QuietAt(s, t, s.procs[i].parent);
        assert ZombieChild(s.procs, i, s.procs[i].parent) <==> s.procs[i].state == ZOMBIE;
      }
    }
    forall i: nat | i < |t.procs| ensures Forks(t, i) {
      hide Pids, Family;
      assert Forks(s, i) && QuietAt(s, t, i);
      if s.at[i].Forking? {
        assert QuietAt(s, t, s.at[i].child);
      }
      if s.procs[i].state == EMBRYO {
        assert QuietAt(s, t, s.forker[i]);
      }
    }
    assert Pids(t) by {
      hide Family, Forks;
      forall i: nat | i < |s.procs|
        ensures t.procs[i].pid == s.procs[i].pid && (t.procs[i].state == UNUSED <==> s.procs[i].state == UNUSED)
      {
        assert QuietAt(s, t, i);
      }
    }
  }

  predicate IsQuiet(l: Label) {
    l.WaitFail? || l.WaitSleep? || l.Kill? || l.Dispatch? || l.Yield? || l.SleepOn? || l.WakeOther?
  }

  lemma QuietKeeps(s: Sys, l: Label)
    requires Inv(s) && Enabled(s, l) && IsQuiet(l)
    ensures Inv(Next(s, l))
  {
    var t := Next(s, l);
    forall i: nat | i < |s.procs| ensures QuietAt(s, t, i) {
      assert Family(s, i);
      hide Forks, Pids;
    }
    hide QuietAt, Forks, Family, Pids;
    Quiet(s, t);
  }

  /** allocproc: the slot was UNUSED, so nobody's child and nobody's parent. */
  lemma AllocKeeps(s: Sys, l: Label)
    requires Inv(s) && Enabled(s, l) && l.ForkAlloc?
    ensures Inv(Next(s, l))
  {
    var t := Next(s, l);
    forall i: nat | i < |t.procs| ensures Family(t, i) {
      hide Pids, Forks;
      assert Family(s, i) && Family(s, l.c);
    }
    forall i: nat | i < |t.procs| ensures Forks(t, i) {
      hide Pids;
      assert Forks(s, i) && Forks(s, l.c) && Forks(s, l.p) && Family(s, l.c);
    }
    assert Pids(t) by {
      hide Family, Forks;
    }
  }

  lemma FailKeeps(s: Sys, l: Label)
    requires Inv(s) && Enabled(s, l) && l.ForkFail?
    ensures Inv(Next(s, l))
  {
    var t := Next(s, l);
    var c := s.at[l.p].child;
    assert Forks(s, l.p) && Forks(s, c) && Family(s, c);
    forall i: nat | i < |t.procs| ensures Family(t, i) {
      hide Pids, Forks;
      assert Family(s, i);
    }
    forall i: nat | i < |t.procs| ensures Forks(t, i) {
      hide Pids, Family;
      assert Forks(s, i);
    }
    assert Pids(t) by {
      hide Family, Forks;
    }
  }

  /** fork makes the embryo the forker's child. */
  lemma ParentKeeps(s: Sys, l: Label)
    requires Inv(s) && Enabled(s, l) && l.ForkParent?
    ensures Inv(Next(s, l))
  {
    var t := Next(s, l);
    assert Forks(s, l.p) && Forks(s, s.at[l.p].child);
    forall i: nat | i < |t.procs| ensures Family(t, i) {
      hide Pids, Forks;
      assert Family(s, i);
    }
    forall i: nat | i < |t.procs| ensures Forks(t, i) {
      hide Pids, Family;
      assert Forks(s, i);
    }
    assert Pids(t) by {
      hide Family, Forks;
    }
  }

  /** The embryo starts to live, beside its parent. */
  lemma DoneKeeps(s: Sys, l: Label)
    requires Inv(s) && Enabled(s, l) && l.ForkDone?
    ensures Inv(Next(s, l))
  {
    var t := Next(s, l);
    assert Forks(s, l.p) && Forks(s, s.at[l.p].child);
    forall i: nat | i < |t.procs| ensures Family(t, i) {
      hide Pids, Forks;
      assert Family(s, i);
    }
    forall i: nat | i < |t.procs| ensures Forks(t, i) {
      hide Pids, Family;
      assert Forks(s, i);
    }
    assert Pids(t) by {
      hide Family, Forks;
    }
  }

  /** wait: the zombie's slot becomes UNUSED; a zombie has no children. */
  lemma ReapKeeps(s: Sys, l: Label)
    requires Inv(s) && Enabled(s, l) && l.WaitReap?
    ensures Inv(Next(s, l))
  {
    var t := Next(s, l);
    assert Forks(s, l.p) && Forks(s, l.c) && Family(s, l.c);
    forall i: nat | i < |t.procs| ensures Family(t, i) {
      hide Pids, Forks;
      assert Family(s, i);
    }
    forall i: nat | i < |t.procs| ensures Forks(t, i) {
      hide Pids, Family;
      assert Forks(s, i);
    }
    assert Pids(t) by {
      hide Family, Forks;
    }
  }

  lemma ExitKeeps(s: Sys, l: Label)
    requires Inv(s) && Enabled(s, l) && l.Exit?
    ensures Inv(Next(s, l))
  {
    hide Exited, Family, Forks, Pids;
    var t := Next(s, l);
    forall i: nat | i < |s.procs| ensures Family(t, i) && Forks(t, i) {
      ExitFamily(s, t, l.p, i);
      ExitForks(s, t, l.p, i);
    }
    ExitPids(s, t, l.p);
  }

  lemma Step(s: Sys, l: Label)
    requires Inv(s) && Enabled(s, l)
    ensures Inv(Next(s, l))
  {
    hide Family, Forks, Pids, Next, Enabled;
    match l
    case ForkAlloc(_, _) => AllocKeeps(s, l);
    case ForkFail(_) => FailKeeps(s, l);
    case ForkParent(_) => ParentKeeps(s, l);
    case ForkDone(_) => DoneKeeps(s, l);
    case Exit(_) => ExitKeeps(s, l);
    case WaitReap(_, _) => ReapKeeps(s, l);
    case _ => QuietKeeps(s, l);
  }

  // ---- whole runs -----------------------------------------------------------------------------------

  ghost predicate Reaches(s: Sys, ls: seq<Label>, t: Sys)
    requires Sized(s)
    decreases |ls|
  {
    if |ls| == 0 then s == t else Enabled(s, ls[0]) && Reaches(Next(s, ls[0]), ls[1..], t)
  }

  lemma {:induction false} RunKeeps(s: Sys, ls: seq<Label>, t: Sys)
    requires Inv(s) && Reaches(s, ls, t)
    ensures Inv(t)
    decreases |ls|
  {
    if |ls| > 0 {
      Step(s, ls[0]);
      RunKeeps(Next(s, ls[0]), ls[1..], t);
    }
  }

  /** In every state of every run: nobody asleep in wait has a zombie child, and every running, runnable, sleeping or
      zombie process except init has a parent that is alive. */
  lemma ParentsOutlive(s: Sys, ls: seq<Label>, t: Sys)
    requires Boot(s) && Reaches(s, ls, t)
    ensures forall p: nat | p < |t.procs| && t.procs[p].state == SLEEPING && t.procs[p].chan == Slot(p) ::
              NoZombie(t.procs, p)
    ensures forall p: nat | p < |t.procs| && p != t.init && (Live(t.procs[p].state) || t.procs[p].state == ZOMBIE) ::
              0 <= t.procs[p].parent < |t.procs| && Live(t.procs[t.procs[p].parent].state)
  {
    hide Pids, Forks;
    BootInv(s);
    RunKeeps(s, ls, t);
    forall p: nat, c: nat | p < |t.procs| && t.procs[p].state == SLEEPING && t.procs[p].chan == Slot(p) && c < |t.procs|
      ensures !ZombieChild(t.procs, c, p)
    {
      assert Family(t, c);
    }
    forall p: nat | p < |t.procs| && p != t.init && (Live(t.procs[p].state) || t.procs[p].state == ZOMBIE)
      ensures 0 <= t.procs[p].parent < |t.procs| && Live(t.procs[t.procs[p].parent].state)
    {
      assert Family(t, p);
    }
  }

  /** In every run no pid is returned by two calls of wait, none that was returned is still in the table, and every
      pid given out is in the table, was returned by a wait, or is that of a fork that failed. */
  lemma PidsOnce(s: Sys, ls: seq<Label>, t: Sys)
    requires Boot(s) && Reaches(s, ls, t)
    ensures forall j: nat, k: nat | j < k < |t.waits| :: t.waits[j] != t.waits[k]
    ensures forall p: nat, k: nat | p < |t.procs| && t.procs[p].state != UNUSED && k < |t.waits| ::
              t.procs[p].pid != t.waits[k]
    ensures forall p: nat, q: nat | p < q < |t.procs| && t.procs[p].state != UNUSED && t.procs[q].state != UNUSED ::
              t.procs[p].pid != t.procs[q].pid
    ensures |t.fate| == t.nextpid && forall i: nat | i < t.nextpid ::
              match t.fate[i]
              case InSlot(c) => c < |t.procs| && t.procs[c].state != UNUSED && t.procs[c].pid == i
              case Returned(k) => k < |t.waits| && t.waits[k] == i
              case Failed(k) => k < |t.fails| && t.fails[k] == i
              case NoPid => i == 0
  {
    hide Family, Forks;
    BootInv(s);
    RunKeeps(s, ls, t);
  }

  // ---- kill and wait ----------------------------------------------------------------------------------

  predicate StillKilled(s: Sys, i: nat) {
    i < |s.procs| && s.procs[i].killed && s.procs[i].state != SLEEPING
  }

  lemma KilledStep(s: Sys, l: Label, i: nat)
    requires Sized(s) && Enabled(s, l) && StillKilled(s, i)
    requires !(l.WaitReap? && l.c == i) && !(l.SleepOn? && l.p == i)
    ensures StillKilled(Next(s, l), i)
  {
    if l.Exit? {
      hide Exited;
      ExitAt(s.procs, l.p, s.init, i);
    } else {
      hide Exited, NoZombie, ZombieChild;
    }
  }

  /** A kill gets a process out of whatever it sleeps on, and it stays killed, and out of wait, until it goes to sleep
      in another call or its slot is given up. */
  lemma {:induction false} KillLasts(s: Sys, i: nat, ls: seq<Label>, t: Sys)
    requires Sized(s) && i < |s.procs| && Reaches(Next(s, Kill(i)), ls, t)
    requires forall k | 0 <= k < |ls| :: !(ls[k].WaitReap? && ls[k].c == i) && !(ls[k].SleepOn? && ls[k].p == i)
    ensures |t.procs| == |s.procs| && t.procs[i].killed && t.procs[i].state != SLEEPING
  {
    assert StillKilled(Next(s, Kill(i)), i);
    KilledRun(Next(s, Kill(i)), i, ls, t);
  }

  lemma {:induction false} KilledRun(s: Sys, i: nat, ls: seq<Label>, t: Sys)
    requires Sized(s) && StillKilled(s, i) && Reaches(s, ls, t)
    requires forall k | 0 <= k < |ls| :: !(ls[k].WaitReap? && ls[k].c == i) && !(ls[k].SleepOn? && ls[k].p == i)
    ensures |t.procs| == |s.procs| && StillKilled(t, i)
    decreases |ls|
  {
    hide StillKilled, Next, Enabled;
    if |ls| > 0 {
      KilledStep(s, ls[0], i);
      SameSlots(s, ls[0]);
      KilledRun(Next(s, ls[0]), i, ls[1..], t);
    }
  }

  lemma SameSlots(s: Sys, l: Label)
    requires Sized(s) && Enabled(s, l)
    ensures |Next(s, l).procs| == |s.procs|
  {
  }

  /** A process that runs and calls wait can always go on, and in just one of three ways: it collects a zombie child if
      it has one; otherwise it fails if it has been killed or has no children at all; otherwise it sleeps. */
  lemma WaitGoesOn(s: Sys, p: nat)
    requires Sized(s) && Runs(s, p) && !s.at[p].Forking?
    ensures var reap := exists c: nat :: Enabled(s, WaitReap(p, c));
            var fail, sleep := Enabled(s, WaitFail(p)), Enabled(s, WaitSleep(p));
            && (reap || fail || sleep) && !(reap && fail) && !(reap && sleep) && !(fail && sleep)
            && (forall c: nat | c < |s.procs| && s.procs[c].parent == p && s.procs[c].state == ZOMBIE ::
                  Enabled(s, WaitReap(p, c)))
            && (sleep ==> !s.procs[p].killed)
            && (fail && !s.procs[p].killed ==> forall c: nat | c < |s.procs| :: s.procs[c].parent != p)
  {
    if !NoZombie(s.procs, p) {
      var c :| 0 <= c < |s.procs| && ZombieChild(s.procs, c, p);
      assert Enabled(s, WaitReap(p, c));
    }
  }

  /** fork, at its end: the child is the forker's, can be scheduled, and has the forker's tickets; its pid is of no
      other slot. */
  lemma ForkMakes(s: Sys, p: nat)
    requires Inv(s) && Enabled(s, ForkDone(p))
    ensures var c, t := s.at[p].child, Next(s, ForkDone(p));
            && c != p && t.procs[c] == s.procs[c].(state := RUNNABLE, tickets := s.procs[p].tickets)
            && t.procs[c].parent == p && t.at[p] == User && 0 < t.procs[c].pid < t.nextpid
            && (forall i: nat | i < |t.procs| && i != c :: t.procs[i] == s.procs[i])
            && (forall i: nat | i < |t.procs| && i != c && t.procs[i].state != UNUSED ::
                   t.procs[i].pid != t.procs[c].pid)
  {
    assert Forks(s, p) && Forks(s, s.at[p].child);
  }

  /** How often slot i is scheduled. */
  function Dispatches(ls: seq<Label>, i: nat): nat {
    if |ls| == 0 then 0 else (if ls[0] == Dispatch(i) then 1 else 0) + Dispatches(ls[1..], i)
  }

  /** ticks counts just that, as long as the slot is not given up. */
  lemma {:induction false} TicksCount(s: Sys, ls: seq<Label>, t: Sys, i: nat)
    requires Sized(s) && i < |s.procs| && Reaches(s, ls, t) && forall k | 0 <= k < |ls| ::
               !(ls[k].WaitReap? && ls[k].c == i)
    ensures |t.procs| == |s.procs| && t.procs[i].ticks == s.procs[i].ticks + Dispatches(ls, i)
    decreases |ls|
  {
    hide Next, Enabled;
    if |ls| > 0 {
      TicksStep(s, ls[0], i);
      SameSlots(s, ls[0]);
      TicksCount(Next(s, ls[0]), ls[1..], t, i);
    }
  }

  lemma TicksStep(s: Sys, l: Label, i: nat)
    requires Sized(s) && i < |s.procs| && Enabled(s, l) && !(l.WaitReap? && l.c == i)
    ensures |Next(s, l).procs| == |s.procs|
    ensures Next(s, l).procs[i].ticks == s.procs[i].ticks + if l == Dispatch(i) then 1 else 0
  {
    if l.Exit? {
      hide Exited;
      ExitAt(s.procs, l.p, s.init, i);
    } else {
      hide Exited, NoZombie, ZombieChild;
    }
  }

  /** A running process can do what it is about to: in user mode exit, unless it is init, fork if a slot is UNUSED,
      sleep and yield; and in the middle of a fork go on with it. */
  lemma RunningGoesOn(s: Sys, ls: seq<Label>, t: Sys, p: nat)
    requires Boot(s) && Reaches(s, ls, t) && Sized(t) && Runs(t, p)
    ensures Enabled(t, Yield(p))
    ensures t.at[p].User? ==> (p != t.init ==> Enabled(t, Exit(p))) && forall n: nat :: Enabled(t, SleepOn(p, n))
    ensures t.at[p].User? ==> forall c: nat | c < |t.procs| && t.procs[c].state == UNUSED :: Enabled(t, ForkAlloc(p, c))
    ensures t.at[p].Forking? ==>
              if t.at[p].parented then Enabled(t, ForkDone(p)) else Enabled(t, ForkFail(p)) && Enabled(t, ForkParent(p))
    ensures forall q: nat | q < |t.procs| ::
              Enabled(t, Kill(q)) && (t.procs[q].state == RUNNABLE ==> Enabled(t, Dispatch(q)))
  {
    hide Inv, Reaches, NoZombie;
    BootInv(s);
    RunKeeps(s, ls, t);
    ForkAt(t, p);
  }

  lemma ForkAt(t: Sys, p: nat)
    requires Inv(t) && p < |t.procs|
    ensures t.at[p].Forking? ==> t.at[p].child < |t.procs|
  {
    hide Pids, Family;
    assert Forks(t, p);
  }

  // ---- sleep and wakeup -----------------------------------------------------------------------------------

  predicate AsleepOn(s: Sys, i: nat, n: nat) {
    i < |s.procs| && s.procs[i].state == SLEEPING && s.procs[i].chan == Other(n)
  }

  lemma AsleepStep(s: Sys, l: Label, i: nat, n: nat)
    requires Inv(s) && Enabled(s, l) && AsleepOn(s, i, n) && l != WakeOther(n) && l != Kill(i)
    ensures AsleepOn(Next(s, l), i, n)
  {
    hide Pids, Family, Exited, NoZombie, ZombieChild;
    if l.Exit? {
      ExitedAt(s.procs, l.p, s.init, i);
    } else if l.ForkFail? || l.ForkParent? || l.ForkDone? {
      assert Forks(s, l.p);
    } else if l.WaitReap? {
      ReapsZombie(s.procs, l.c, l.p);
    }
  }

  lemma ReapsZombie(t: seq<Proc>, c: nat, p: nat)
    requires ZombieChild(t, c, p)
    ensures c < |t| && t[c].state == ZOMBIE
  {
  }

  /** A process that sleeps goes on sleeping until a wakeup on what it sleeps on, or a kill; there is no other. */
  lemma {:induction false} SleepsOn(s: Sys, ls: seq<Label>, t: Sys, i: nat, n: nat)
    requires Inv(s) && Reaches(s, ls, t) && AsleepOn(s, i, n)
    requires forall k | 0 <= k < |ls| :: ls[k] != WakeOther(n) && ls[k] != Kill(i)
    ensures AsleepOn(t, i, n)
    decreases |ls|
  {
    hide Inv, Next, Enabled, AsleepOn;
    if |ls| > 0 {
      SizedInv(s);
      AsleepStep(s, ls[0], i, n);
      Step(s, ls[0]);
      SleepsOn(Next(s, ls[0]), ls[1..], t, i, n);
    }
  }

  lemma SizedInv(s: Sys)
    requires Inv(s)
    ensures Sized(s)
  {
  }

  /** And then it wakes: wakeup makes RUNNABLE just those that sleep on the channel, and changes nothing else. */
  lemma WakesUp(s: Sys, n: nat, i: nat)
    requires Sized(s) && i < |s.procs|
    ensures var t := Next(s, WakeOther(n));
            && t == s.(procs := t.procs) && |t.procs| == |s.procs|
            && t.procs[i] == if AsleepOn(s, i, n) then s.procs[i].(state := RUNNABLE) else s.procs[i]
    ensures AsleepOn(s, i, n) ==> Enabled(Next(s, WakeOther(n)), Dispatch(i))
  {
  }

  /** sleep and wakeup together: from its sleep on a channel a process is woken by the next wakeup on that channel, and
      not before, whatever others do meanwhile, unless it is killed. */
  lemma SleepThenWake(s: Sys, p: nat, n: nat, ls: seq<Label>, t: Sys)
    requires Inv(s) && Enabled(s, SleepOn(p, n)) && Reaches(Next(s, SleepOn(p, n)), ls, t)
    requires forall k | 0 <= k < |ls| :: ls[k] != WakeOther(n) && ls[k] != Kill(p)
    ensures Sized(t) && p < |t.procs| && t.procs[p].state == SLEEPING && !Enabled(t, Dispatch(p))
    ensures Next(t, WakeOther(n)).procs[p].state == RUNNABLE && Enabled(Next(t, WakeOther(n)), Dispatch(p))
  {
    var u := Next(s, SleepOn(p, n));
    assert AsleepOn(u, p, n);
    Step(s, SleepOn(p, n));
    SleepsOn(u, ls, t, p, n);
    RunKeeps(u, ls, t);
    hide Inv, Reaches;
    SizedInv(t);
    WakesUp(t, n, p);
  }

  /** yield and the scheduler together: the process runs again, as it was, with one tick more; in between it does not.
      */
  lemma YieldAndBack(s: Sys, p: nat)
    requires Sized(s) && Enabled(s, Yield(p))
    ensures var u := Next(s, Yield(p));
            && u.procs[p].state == RUNNABLE && Enabled(u, Dispatch(p))
            && Next(u, Dispatch(p)) == Set(s, p, s.procs[p].(ticks := s.procs[p].ticks + 1, chan := NoChan))
  {
    var u := Next(s, Yield(p));
    assert Next(u, Dispatch(p)).procs == Set(s, p, s.procs[p].(ticks := s.procs[p].ticks + 1, chan := NoChan)).procs;
  }
}
