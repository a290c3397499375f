/** The process table of src/proc.c: what fork, exit, wait, kill and sleep do to it under ptable.lock. */
module ProcTable {

  datatype State = UNUSED | EMBRYO | SLEEPING | RUNNABLE | RUNNING | ZOMBIE

  /** What a process sleeps on: the address of a process-table slot, as wait does, or anything else. */
  datatype Chan = NoChan | Slot(i: int) | Other(n: nat)

  /** parent is the slot of the parent, or -1. */
  datatype Proc = Proc(state: State, pid: nat, parent: int, chan: Chan, killed: bool,
                       tickets: int, ticks: int, inuse: bool)

  /** What allocproc makes of an UNUSED slot. */
  function Born(q: Proc, pid: nat): Proc {
    q.(state := EMBRYO, pid := pid, tickets := 1, inuse := true)
  }

  /** wakeup1 on one slot. */
  function Woken(q: Proc, chan: Chan): Proc {
    if q.state == SLEEPING && q.chan == chan then q.(state := RUNNABLE) else q
  }

  function WakeAll(t: seq<Proc>, chan: Chan): (r: seq<Proc>)
    ensures |r| == |t| && forall i | 0 <= i < |t| :: r[i] == Woken(t[i], chan)
  {
    if |t| == 0 then [] else WakeAll(t[..|t| - 1], chan) + [Woken(t[|t| - 1], chan)]
  }

  predicate ZombieChild(t: seq<Proc>, c: int, p: nat) {
    0 <= c < |t| && t[c].parent == p && t[c].state == ZOMBIE
  }

  /** exit on one slot: children go to init. */
  function Orphaned(q: Proc, p: nat, init: nat): Proc {
    if q.parent == p then q.(parent := init) else q
  }

  function OrphanAll(t: seq<Proc>, p: nat, init: nat): (r: seq<Proc>)
    ensures |r| == |t| && forall i | 0 <= i < |t| :: r[i] == Orphaned(t[i], p, init)
  {
    if |t| == 0 then [] else OrphanAll(t[..|t| - 1], p, init) + [Orphaned(t[|t| - 1], p, init)]
  }

  /** The loop of exit: the children go to init, which is woken if one of them is a zombie. */
  function Inherited(t: seq<Proc>, p: nat, init: nat): (r: seq<Proc>)
    ensures |r| == |t|
  {
    if exists c | 0 <= c < |t| :: ZombieChild(t, c, p) then WakeAll(OrphanAll(t, p, init), Slot(init))
    else OrphanAll(t, p, init)
  }

  /** The locked part of exit: the parent is woken, the children go to init, and p becomes a zombie. */
  function Exited(t: seq<Proc>, p: nat, init: nat): (r: seq<Proc>)
    requires p < |t|
    ensures |r| == |t|
  {
    var table := Inherited(WakeAll(t, Slot(t[p].parent)), p, init);
    table[p := table[p].(state := ZOMBIE)]
  }

  /** What wait leaves of a zombie's slot. */
  function Reaped(q: Proc): Proc {
    q.(state := UNUSED, pid := 0, parent := -1, killed := false, tickets := 0, ticks := 0, inuse := false)
  }

  /** One slot in the middle of exit's loop: already looked at or not, init already woken or not. */
  function Passing(q: Proc, seen: bool, woke: bool, p: nat, init: nat): Proc {
    var o := if seen then Orphaned(q, p, init) else q;
    if woke then Woken(o, Slot(init)) else o
  }

  predicate HasZombie(t: seq<Proc>, p: nat) {
    exists c | 0 <= c < |t| :: ZombieChild(t, c, p)
  }

  /** What exit of p does to another slot, field by field: children go to init, and whoever sleeps on `chan`, or on init
      while p has a zombie child, is woken. */
  predicate Passed(q: Proc, r: Proc, p: nat, init: nat, zombie: bool, chan: Chan) {
    && r == q.(parent := r.parent, state := r.state)
    && r.parent == (if q.parent == p then init else q.parent)
    && r.state == if q.state == SLEEPING && ((chan.Slot? && q.chan == chan) || (q.chan == Slot(init) && zombie))
                  then RUNNABLE else q.state
  }

  lemma InheritedFields(t: seq<Proc>, p: nat, init: nat)
    ensures forall i | 0 <= i < |t| :: Passed(t[i], Inherited(t, p, init)[i], p, init, HasZombie(t, p), NoChan)
  {
    hide ZombieChild;
  }

  lemma ExitedFields(t: seq<Proc>, p: nat, init: nat)
    requires p < |t|
    ensures var r, chan := Exited(t, p, init), Slot(t[p].parent);
            && r[p].state == ZOMBIE
            && r[p] == t[p].(state := ZOMBIE, parent := if t[p].parent == p then init else t[p].parent)
            && forall i | 0 <= i < |t| && i != p :: Passed(t[i], r[i], p, init, HasZombie(t, p), chan)
  {
    var chan := Slot(t[p].parent);
    var u := WakeAll(t, chan);
    SameZombies(t, u, chan, p);
    assert HasZombie(u, p) == HasZombie(t, p);
    InheritedFields(u, p, init);
    hide ZombieChild, HasZombie, Inherited;
  }

  lemma PassOne(q: Proc, woke: bool, p: nat, init: nat)
    ensures var o := Passing(q, false, woke, p, init);
            && o.parent == q.parent && (o.state == ZOMBIE <==> q.state == ZOMBIE)
            && Passing(q, true, woke, p, init) == if q.parent == p then o.(parent := init) else o
  {
  }

  lemma PassWoken(q: Proc, seen: bool, woke: bool, p: nat, init: nat)
    ensures Woken(Passing(q, seen, woke, p, init), Slot(init)) == Passing(q, seen, true, p, init)
  {
  }

  lemma PassedAll(t: seq<Proc>, r: seq<Proc>, woke: bool, p: nat, init: nat)
    requires |r| == |t| && forall i | 0 <= i < |t| :: r[i] == Passing(t[i], true, woke, p, init)
    ensures r == if woke then WakeAll(OrphanAll(t, p, init), Slot(init)) else OrphanAll(t, p, init)
  {
  }

  lemma SameZombies(t: seq<Proc>, t1: seq<Proc>, chan: Chan, p: nat)
    requires t1 == WakeAll(t, chan)
    ensures forall c: int :: ZombieChild(t1, c, p) == ZombieChild(t, c, p)
  {
  }

  class Table {
    var procs: seq<Proc>
    var nextpid: nat

    constructor (procs: seq<Proc>, nextpid: nat)
      ensures this.procs == procs && this.nextpid == nextpid
    {
      this.procs := procs;
      this.nextpid := nextpid;
    }

    /** The locked part of allocproc: the first UNUSED slot becomes an EMBRYO with a new pid; -1 if there is none. */
    method AllocProc() returns (c: int)
      modifies this
      ensures -1 <= c < |procs| == |old(procs)|
      ensures c < 0 ==> unchanged(this) && forall i | 0 <= i < |procs| :: procs[i].state != UNUSED
      ensures c >= 0 ==>
                && old(procs)[c].state == UNUSED && (forall i | 0 <= i < c :: old(procs)[i].state != UNUSED)
                && procs == old(procs)[c := Born(old(procs)[c], old(nextpid))]
                && procs[c] == old(procs)[c].(state := EMBRYO, pid := old(nextpid), tickets := 1, inuse := true)
                && nextpid == old(nextpid) + 1
    {
      var p := 0;
      while p < |procs|
        invariant p <= |procs| && unchanged(this)
        invariant forall i | 0 <= i < p :: procs[i].state != UNUSED
      {
        if procs[p].state == UNUSED {
          procs := procs[p := Born(procs[p], nextpid)];
          nextpid := nextpid + 1;
          return p;
        }
        p := p + 1;
      }
      c := -1;
    }

    /** wakeup1 */
    method Wakeup1(chan: Chan)
      modifies this`procs
      ensures procs == WakeAll(old(procs), chan)
      ensures forall i | 0 <= i < |procs| ::
                procs[i] == if old(procs)[i].state == SLEEPING && old(procs)[i].chan == chan
                            then old(procs)[i].(state := RUNNABLE) else old(procs)[i]
    {
      var p := 0;
      while p < |procs|
        invariant p <= |procs| == |old(procs)|
        invariant forall i | 0 <= i < |procs| :: procs[i] == if i < p then Woken(old(procs)[i], chan) else old(procs)[i]
      {
        if procs[p].state == SLEEPING && procs[p].chan == chan {
          procs := procs[p := procs[p].(state := RUNNABLE)];
        }
        p := p + 1;
      }
      assert procs == WakeAll(old(procs), chan);
    }

    /** The loop of exit over the children. */
    method PassChildren(cur: nat, init: nat)
      modifies this`procs
      ensures procs == Inherited(old(procs), cur, init)
      ensures |procs| == |old(procs)| && forall i | 0 <= i < |procs| ::
                Passed(old(procs)[i], procs[i], cur, init, HasZombie(old(procs), cur), NoChan)
    {
      hide Woken, Orphaned, Passed, HasZombie;
      ghost var t := procs;
      ghost var woke := false;
      var p := 0;
      while p < |procs|
        invariant p <= |procs| == |t|
        invariant woke == exists c | 0 <= c < p :: ZombieChild(t, c, cur)
        invariant forall i | 0 <= i < |t| :: procs[i] == Passing(t[i], i < p, woke, cur, init)
      {
        PassOne(t[p], woke, cur, init);
        if procs[p].parent == cur {
          procs := procs[p := procs[p].(parent := init)];
          if procs[p].state == ZOMBIE {
            assert ZombieChild(t, p, cur);
            Wakeup1(Slot(init));
            forall i | 0 <= i < |t| { PassWoken(t[i], i <= p, woke, cur, init); }
            woke := true;
          }
        }
        p := p + 1;
      }
      PassedAll(t, procs, woke, cur, init);
      InheritedFields(t, cur, init);
    }

    /** The locked part of exit. */
    method Exit(cur: nat, init: nat)
      requires cur < |procs|
      modifies this`procs
      ensures procs == Exited(old(procs), cur, init)
      ensures procs[cur] == old(procs)[cur].(state := ZOMBIE, parent := procs[cur].parent)
      ensures forall i | 0 <= i < |procs| && i != cur ::
                Passed(old(procs)[i], procs[i], cur, init, HasZombie(old(procs), cur), Slot(old(procs)[cur].parent))
    {
      hide Passed, HasZombie;
      ExitedFields(procs, cur, init);
      Wakeup1(Slot(procs[cur].parent));
      PassChildren(cur, init);
      procs := procs[cur := procs[cur].(state := ZOMBIE)];
    }

    /** The scan of wait: the first zombie child is reaped and its pid returned; otherwise it says whether there are
        children. */
    method WaitScan(cur: nat) returns (found: bool, pid: nat, c: nat, havekids: bool)
      requires cur < |procs|
      modifies this`procs
      ensures found ==>
                && ZombieChild(old(procs), c, cur) && (forall i | 0 <= i < c :: !ZombieChild(old(procs), i, cur))
                && pid == old(procs)[c].pid && procs == old(procs)[c := Reaped(old(procs)[c])]
                && procs[c] == Proc(UNUSED, 0, -1, old(procs)[c].chan, false, 0, 0, false)
      ensures !found ==> unchanged(this) && (forall i | 0 <= i < |procs| :: !ZombieChild(procs, i, cur))
      ensures !found ==> (havekids <==> exists i | 0 <= i < |procs| :: procs[i].parent == cur)
    {
      havekids, found, pid, c := false, false, 0, 0;
      var p := 0;
      while p < |procs|
        invariant p <= |procs| && unchanged(this) && !found
        invariant forall i | 0 <= i < p :: !ZombieChild(procs, i, cur)
        invariant havekids <==> exists i | 0 <= i < p :: procs[i].parent == cur
      {
        if procs[p].parent == cur {
          havekids := true;
          if procs[p].state == ZOMBIE {
            found, pid, c := true, procs[p].pid, p;
            procs := procs[p := Reaped(procs[p])];
            return;
          }
        }
        p := p + 1;
      }
    }

    /** kill: the first slot with the pid is marked and, if it is asleep, made RUNNABLE. */
    method Kill(pid: nat) returns (r: int, ghost c: nat)
      modifies this`procs
      ensures r == if exists i | 0 <= i < |old(procs)| :: old(procs)[i].pid == pid then 0 else -1
      ensures r == -1 ==> unchanged(this)
      ensures r == 0 ==>
                && c < |old(procs)| && old(procs)[c].pid == pid && (forall i | 0 <= i < c :: old(procs)[i].pid != pid)
                && procs == old(procs)[c := Struck(old(procs)[c])]
                && procs[c] == old(procs)[c].(killed := true, state := procs[c].state)
                && procs[c].state == if old(procs)[c].state == SLEEPING then RUNNABLE else old(procs)[c].state
    {
      var p := 0;
      c := 0;
      while p < |procs|
        invariant p <= |procs| && unchanged(this)
        invariant forall i | 0 <= i < p :: procs[i].pid != pid
      {
        if procs[p].pid == pid {
          procs := procs[p := procs[p].(killed := true)];
          if procs[p].state == SLEEPING {
            procs := procs[p := procs[p].(state := RUNNABLE)];
          }
          return 0, p;
        }
        p := p + 1;
      }
      r := -1;
    }
  }

  /** kill on one slot. */
  function Struck(q: Proc): Proc {
    q.(killed := true, state := if q.state == SLEEPING then RUNNABLE else q.state)
  }
}
