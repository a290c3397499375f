/** The file system on the log: writes, reads and truncations of any number of processes, step by step, made in
    transactions of the log, with a crash possible at every point.  Whatever happens, recovery brings back the files as
    they were after a first part of the operations that finished, each of them whole, in the order in which they did. */
module CrashFs {
  import opened Seqs
  import opened Blocks
  import opened FsModel
  import opened LogPlan
  import opened DiskLayout
  import opened FileOps
  import Mkfs
  import FsRun
  import FsActs
  import FsLaws
  import GroupCommit

  /** One log_write. */
  datatype Put = Put(blk: nat, data: Block)

  /** What a run starts from: the places on the disk, the disk, and the files on it. */
  datatype Config = Config(sb: Super, g: Geometry, start: Disk, files: FsRun.Plain)

  /** The blocks of the disk hold these files, where the addresses that only memory has are left out. */
  ghost predicate OnBlocks(sb: Super, g: Geometry, d: Disk, p: FsRun.Plain) {
    exists fs: Fs, disk, own :: Layout(sb, g, d, Fs(fs.bitmap, disk, fs.data)) && FsRun.Holds(sb, fs, disk, own, p)
  }

  ghost predicate Started(c: Config) {
    && c.g.Valid() && |c.start| == c.g.total && ReadCount(c.start[c.g.start]) == 0
    && FsRun.Sized(c.files) && OnBlocks(c.sb, c.g, c.start, c.files)
  }

  /** What a process is doing inside an operation of the log: nothing, or an operation on a file whose inode it has
      locked, of which `past` is done and has taken some blocks, and `todo` is left. */
  datatype Job = Idle | Busy(op: FsRun.Op, past: seq<FsRun.Act>, todo: seq<FsRun.Act>, taken: int)

  /** The log, what each of its operations is doing, the files as memory has them, the operations on files that have
      finished and that no crash has undone, and how many of them have been committed. */
  datatype Sys = Sys(log: GroupCommit.Sys, jobs: seq<Job>, now: FsRun.Plain, done: seq<FsRun.Op>, kept: nat)

  datatype Label =
    | Log(l: GroupCommit.Label)                // a step of the log other than log_write
    | Start(i: nat, op: FsRun.Op)              // operation i of the log begins an operation on a file
    | Call(i: nat, puts: seq<Put>)             // and makes a step of it
    | Evict(inum: nat)                         // an inode that nobody uses leaves the cache

  /** The log_writes, one after the other. */
  ghost predicate LogAll(g: Geometry, s: GroupCommit.Sys, i: nat, puts: seq<Put>, t: GroupCommit.Sys)
    decreases |puts|
  {
    if |puts| == 0 then t == s
    else
      var l := GroupCommit.LogWrite(i, puts[0].blk, puts[0].data);
      && GroupCommit.Wf(g, s) && GroupCommit.Enabled(g, s, l)
      && LogAll(g, GroupCommit.Next(g, s, l), i, puts[1..], t)
  }

  /** The operations can be made in turn. */
  ghost predicate Runs(c: Config, ops: seq<FsRun.Op>) {
    FsRun.Sized(c.files) && FsRun.AllCallable(ops, |c.files.files|) && FsRun.AllFit(c.files, ops)
  }

  predicate OnFile(op: FsRun.Op) { op.Write? || op.Read? || op.Truncate? }

  /** Nobody has the inode locked. */
  predicate Unlocked(jobs: seq<Job>, inum: nat) {
    forall i: nat | i < |jobs| && jobs[i].Busy? && OnFile(jobs[i].op) :: jobs[i].op.inum != inum
  }

  ghost predicate LogMoves(c: Config, s: Sys, l: GroupCommit.Label, t: Sys)
    requires s.kept <= |s.done| && Runs(c, s.done[..s.kept])
  {
    && !l.LogWrite? && GroupCommit.Wf(c.g, s.log) && GroupCommit.Enabled(c.g, s.log, l)
    && t.log == GroupCommit.Next(c.g, s.log, l)
    && (if l.Crash? then
          && t.jobs == [] && t.done == s.done[..s.kept] + [FsRun.Restart] && t.kept == s.kept + 1
          && t.now == FsRun.Restarted(FsRun.ApplyAll(c.files, s.done[..s.kept]))
        else
          && t.done == s.done && t.now == s.now
          && (t.kept == if |t.log.groups| > |s.log.groups| then |s.done| else s.kept)
          && match l
             case BeginOp => t.jobs == s.jobs + [Idle]
             case EndOp(i) => i < |s.jobs| && s.jobs[i].Idle? && t.jobs == RemoveAt(s.jobs, i)
             case _ => t.jobs == s.jobs)
  }

  ghost predicate StartMoves(s: Sys, i: nat, op: FsRun.Op, t: Sys) {
    && i < |s.jobs| && s.jobs[i].Idle? && OnFile(op) && FsRun.Callable(op, |s.now.files|) && Unlocked(s.jobs, op.inum)
    && var acts := FsActs.Acts(s.now.files[op.inum], op);
       t == if acts == [] then s.(done := s.done + [op]) else s.(jobs := s.jobs[i := Busy(op, [], acts, 0)])
  }

  /** The step logs blocks, after which the cache holds the files as it leaves them. */
  ghost predicate CallMoves(c: Config, s: Sys, i: nat, puts: seq<Put>, t: Sys) {
    && i < |s.jobs| && s.jobs[i].Busy? && |s.jobs[i].todo| > 0
    && var Busy(op, past, todo, taken) := s.jobs[i]; var a := todo[0];
       && FsRun.Doable(s.now, a) && FsRun.Room(s.now, a) && FsActs.Sensible(s.now.files[a.inum], a)
       && LogAll(c.g, s.log, i, puts, t.log) && t.now == FsRun.Do(s.now, a) && OnBlocks(c.sb, c.g, t.log.cache, t.now)
       && t.kept == s.kept
       && (if |todo| == 1 then t.jobs == s.jobs[i := Idle] && t.done == s.done + [op]
           else
             var b := Busy(op, past + [a], todo[1..], taken + FsActs.Takes(s.now.files[a.inum], a));
             t.jobs == s.jobs[i := b] && t.done == s.done)
  }

  ghost predicate Moves(c: Config, s: Sys, l: Label, t: Sys)
    requires s.kept <= |s.done| && Runs(c, s.done[..s.kept])
  {
    match l
    case Log(l) => LogMoves(c, s, l, t)
    case Start(i, op) => StartMoves(s, i, op, t)
    case Call(i, puts) => CallMoves(c, s, i, puts, t)
    case Evict(inum) =>
      && inum < |s.now.files| && Unlocked(s.jobs, inum) && !s.log.mode.Recovering?
      && t == s.(now := FsRun.Evicted(s.now, inum), done := s.done + [FsRun.Forget(inum)])
  }

  // ---- one after the other --------------------------------------------------------------------------

  function InFlight(jobs: seq<Job>): int {
    if |jobs| == 0 then 0
    else InFlight(jobs[..|jobs| - 1]) + if jobs[|jobs| - 1].Busy? then jobs[|jobs| - 1].taken else 0
  }

  /** A job has made the first of its steps on the file as the finished operations have left it. */
  ghost predicate JobOk(q: FsRun.Plain, now: FsRun.Plain, j: Job) {
    j.Busy? ==>
      && OnFile(j.op) && FsRun.Callable(j.op, |q.files|) && |j.todo| > 0 && j.op.inum < |now.files|
      && var f := q.files[j.op.inum];
         && j.past + j.todo == FsActs.Acts(f, j.op) && FsActs.Runs(f, j.past)
         && now.files[j.op.inum] == FsActs.After(f, j.past) && j.taken == FsActs.Taken(f, j.past) >= 0
  }

  /** Memory is what the finished operations made in turn, with what the running ones have done so far. */
  ghost predicate Serial(q: FsRun.Plain, now: FsRun.Plain, jobs: seq<Job>) {
    && |now.files| == |q.files| && FsRun.Sized(q) && now.lost == q.lost && now.free + InFlight(jobs) == q.free
    && (forall i: nat | i < |jobs| :: JobOk(q, now, jobs[i]))
    && (forall i: nat, j: nat | i < j < |jobs| && jobs[i].Busy? && jobs[j].Busy? :: jobs[i].op.inum != jobs[j].op.inum)
    && (forall n: nat | n < |q.files| && Unlocked(jobs, n) :: now.files[n] == q.files[n])
  }

  function TakenBy(j: Job): int { if j.Busy? then j.taken else 0 }

  lemma {:induction false} FlightChanged(jobs: seq<Job>, i: nat, j: Job)
    requires i < |jobs|
    ensures InFlight(jobs[i := j]) == InFlight(jobs) - TakenBy(jobs[i]) + TakenBy(j)
  {
    var n := |jobs| - 1;
    if i < n {
      FlightChanged(jobs[..n], i, j);
      assert jobs[i := j][..n] == jobs[..n][i := j];
    } else {
      assert jobs[i := j][..n] == jobs[..n];
    }
  }

  lemma {:induction false} FlightRemoved(jobs: seq<Job>, i: nat)
    requires i < |jobs| && jobs[i].Idle?
    ensures InFlight(RemoveAt(jobs, i)) == InFlight(jobs)
  {
    var n := |jobs| - 1;
    if i < n {
      FlightRemoved(jobs[..n], i);
      assert RemoveAt(jobs, i)[..n - 1] == RemoveAt(jobs[..n], i);
    } else {
      assert RemoveAt(jobs, i) == jobs[..n];
    }
  }

  lemma {:induction false} FlightSome(jobs: seq<Job>)
    requires forall i: nat | i < |jobs| && jobs[i].Busy? :: jobs[i].taken >= 0
    ensures InFlight(jobs) >= 0
  {
    if |jobs| > 0 {
      FlightSome(jobs[..|jobs| - 1]);
    }
  }

  /** With nothing running memory is what the finished operations made. */
  lemma SerialNone(q: FsRun.Plain, now: FsRun.Plain)
    requires Serial(q, now, [])
    ensures now == q
  {
    hide FsRun.Sized;
    forall n: nat | n < |q.files| ensures now.files[n] == q.files[n] {
      assert Unlocked([], n);
    }
  }

  lemma SerialSelf(q: FsRun.Plain)
    requires FsRun.Sized(q)
    ensures Serial(q, q, [])
  {
  }

  lemma SerialBegin(q: FsRun.Plain, now: FsRun.Plain, jobs: seq<Job>)
    requires Serial(q, now, jobs)
    ensures Serial(q, now, jobs + [Idle])
  {
    hide FsRun.Sized, JobOk;
    assert (jobs + [Idle])[..|jobs|] == jobs;
    forall i: nat | i < |jobs + [Idle]| ensures JobOk(q, now, (jobs + [Idle])[i]) {
      IdleOk(q, now);
    }
    forall n: nat | n < |q.files| && Unlocked(jobs + [Idle], n) ensures now.files[n] == q.files[n] {
      assert forall i: nat | i < |jobs| :: jobs[i] == (jobs + [Idle])[i];
      assert Unlocked(jobs, n);
    }
  }

  lemma IdleOk(q: FsRun.Plain, now: FsRun.Plain)
    ensures JobOk(q, now, Idle)
  {
  }

  lemma SerialEnd(q: FsRun.Plain, now: FsRun.Plain, jobs: seq<Job>, i: nat)
    requires Serial(q, now, jobs) && i < |jobs| && jobs[i].Idle?
    ensures Serial(q, now, RemoveAt(jobs, i))
  {
    hide FsRun.Sized, JobOk, InFlight;
    FlightRemoved(jobs, i);
    var rest := RemoveAt(jobs, i);
    forall n: nat | n < |q.files| && Unlocked(rest, n) ensures now.files[n] == q.files[n] {
      forall k: nat | k < |jobs| && jobs[k].Busy? && OnFile(jobs[k].op) ensures jobs[k].op.inum != n {
        assert k != i;
        assert jobs[k] == rest[if k < i then k else k - 1];
      }
    }
  }

  /** A job comes up for an idle operation. */
  lemma SerialStart(q: FsRun.Plain, now: FsRun.Plain, jobs: seq<Job>, i: nat, op: FsRun.Op, acts: seq<FsRun.Act>)
    requires Serial(q, now, jobs) && i < |jobs| && jobs[i].Idle? && OnFile(op) && FsRun.Callable(op, |now.files|)
    requires Unlocked(jobs, op.inum) && acts == FsActs.Acts(now.files[op.inum], op) != []
    ensures Serial(q, now, jobs[i := Busy(op, [], acts, 0)])
  {
    hide FsRun.Sized, InFlight, FsActs.Acts;
    var j := Busy(op, [], acts, 0);
    FlightChanged(jobs, i, j);
    FsActs.NoActs(q.files[op.inum]);
    assert [] + acts == acts;
    forall k: nat | k < |jobs| && k != i && jobs[k].Busy? ensures jobs[k].op.inum != op.inum {
      assert JobOk(q, now, jobs[k]);
    }
    UnlockedMore(q, now, jobs, i, j);
  }

  /** More locks leave fewer inodes unlocked. */
  lemma UnlockedMore(q: FsRun.Plain, now: FsRun.Plain, jobs: seq<Job>, i: nat, j: Job)
    requires i < |jobs| && jobs[i].Idle?
    ensures forall n: nat | Unlocked(jobs[i := j], n) :: Unlocked(jobs, n)
  {
    forall n: nat | Unlocked(jobs[i := j], n) ensures Unlocked(jobs, n) {
      forall k: nat | k < |jobs| && jobs[k].Busy? && OnFile(jobs[k].op) ensures jobs[k].op.inum != n {
        assert jobs[i := j][k] == jobs[k];
      }
    }
  }

  /** The step that job i is to make. */
  lemma NextAct(q: FsRun.Plain, now: FsRun.Plain, jobs: seq<Job>, i: nat)
    requires Serial(q, now, jobs) && i < |jobs| && jobs[i].Busy?
    ensures var Busy(op, past, todo, taken) := jobs[i];
            && OnFile(op) && |todo| > 0 && todo[0].inum == op.inum < |now.files| && !todo[0].Drop?
            && (todo[0].Cut? ==> |todo| == 1 && past == [])
  {
    hide FsRun.Sized, InFlight, FsActs.Acts, FsActs.Runs, FsActs.After, FsActs.Taken;
    var Busy(op, past, todo, taken) := jobs[i];
    assert JobOk(q, now, jobs[i]);
    FsActs.ActsOn(q.files[op.inum], op);
    assert (past + todo)[|past|] == todo[0];
  }

  /** A step on file n as part of the job that has it locked. */
  lemma StepTaken(f: File, past: seq<FsRun.Act>, a: FsRun.Act)
    requires FsActs.Runs(f, past) && FsActs.Sensible(FsActs.After(f, past), a)
    ensures FsActs.Runs(f, past + [a]) && FsActs.After(f, past + [a]) == FsActs.ActOn(FsActs.After(f, past), a)
    ensures FsActs.Taken(f, past + [a]) == FsActs.Taken(f, past) + FsActs.Takes(FsActs.After(f, past), a)
  {
    var g := FsActs.After(f, past);
    FsActs.NoActs(FsActs.ActOn(g, a));
    FsActs.RunsCons(g, a, []);
    assert [a] + [] == [a];
    FsActs.RunsTwice(f, past, [a]);
  }

  /** Other files are as they were, and so are the jobs on them. */
  lemma OthersOk(q: FsRun.Plain, now: FsRun.Plain, q2: FsRun.Plain, now2: FsRun.Plain, j: Job, n: nat)
    requires JobOk(q, now, j) && (j.Busy? ==> j.op.inum != n)
    requires |q2.files| == |q.files| && |now2.files| == |now.files|
    requires forall k: nat | k < |q.files| && k != n :: q2.files[k] == q.files[k]
    requires forall k: nat | k < |now.files| && k != n :: now2.files[k] == now.files[k]
    ensures JobOk(q2, now2, j)
  {
  }

  lemma SerialCall(q: FsRun.Plain, now: FsRun.Plain, jobs: seq<Job>, i: nat, now2: FsRun.Plain, j: Job)
    requires Serial(q, now, jobs) && i < |jobs| && jobs[i].Busy? && |jobs[i].todo| > 1
    requires var Busy(op, past, todo, taken) := jobs[i]; var a := todo[0];
             && a.inum < |now.files| && FsActs.Sensible(now.files[a.inum], a)
             && FsRun.Doable(now, a) && FsRun.Room(now, a) && now2 == FsRun.Do(now, a)
             && j == Busy(op, past + [a], todo[1..], taken + FsActs.Takes(now.files[a.inum], a))
    ensures Serial(q, now2, jobs[i := j])
  {
    hide FsRun.Sized, InFlight, FsActs.Acts, FsActs.Runs, FsActs.After, FsActs.Taken, FsRun.Do, FsActs.Sensible,
         FsRun.Room,
         FsActs.ActOn;
    NextAct(q, now, jobs, i);
    var Busy(op, past, todo, taken) := jobs[i];
    var a, n := todo[0], op.inum;
    assert JobOk(q, now, jobs[i]);
    FsActs.DoIs(now, a);
    StepTaken(q.files[n], past, a);
    FlightChanged(jobs, i, j);
    assert past + [a] + todo[1..] == past + todo;
    assert JobOk(q, now2, j);
    forall k: nat | k < |jobs| && k != i ensures JobOk(q, now2, jobs[k]) {
      assert JobOk(q, now, jobs[k]);
      OthersOk(q, now, q, now2, jobs[k], n);
    }
    LocksSame(jobs, i, j);
    forall k: nat | k < |q.files| && Unlocked(jobs[i := j], k) ensures now2.files[k] == q.files[k] {
      assert Unlocked(jobs, k) && k != n;
    }
  }

  lemma LocksSame(jobs: seq<Job>, i: nat, j: Job)
    requires i < |jobs| && jobs[i].Busy? && OnFile(jobs[i].op) && j.Busy? && j.op == jobs[i].op
    ensures forall n: nat | Unlocked(jobs[i := j], n) :: Unlocked(jobs, n) && n != j.op.inum
  {
    forall n: nat | Unlocked(jobs[i := j], n) ensures Unlocked(jobs, n) && n != j.op.inum {
      assert jobs[i := j][i] == j;
      forall k: nat | k < |jobs| && jobs[k].Busy? && OnFile(jobs[k].op) ensures jobs[k].op.inum != n {
        assert jobs[i := j][k].op == jobs[k].op;
      }
    }
  }

  /** The last step: the operation has finished, and could have been made after those that had before. */
  lemma SerialLast(q: FsRun.Plain, now: FsRun.Plain, jobs: seq<Job>, i: nat, now2: FsRun.Plain)
    requires Serial(q, now, jobs) && i < |jobs| && jobs[i].Busy? && |jobs[i].todo| == 1
    requires var a := jobs[i].todo[0];
             && a.inum < |now.files| && FsActs.Sensible(now.files[a.inum], a)
             && FsRun.Doable(now, a) && FsRun.Room(now, a) && now2 == FsRun.Do(now, a)
    ensures FsRun.Callable(jobs[i].op, |q.files|) && FsRun.Fits(q, jobs[i].op)
    ensures Serial(FsRun.Apply(q, jobs[i].op), now2, jobs[i := Idle])
  {
    hide FsRun.Sized, InFlight, FsActs.Acts, FsActs.Runs, FsActs.After, FsActs.Taken, FsRun.Do, FsActs.Sensible,
         FsRun.Room,
         FsActs.ActOn, FsRun.Fits, FsRun.Apply;
    NextAct(q, now, jobs, i);
    var Busy(op, past, todo, taken) := jobs[i];
    var a, n := todo[0], op.inum;
    assert JobOk(q, now, jobs[i]);
    FsActs.DoIs(now, a);
    StepTaken(q.files[n], past, a);
    assert past + [a] == past + todo;
    FlightChanged(jobs, i, Idle);
    var left := jobs[i := Idle];
    forall k: nat | k < |left| && left[k].Busy? ensures left[k].taken >= 0 {
      assert JobOk(q, now, jobs[k]);
    }
    FlightSome(left);
    FsActs.ActsMake(q, op);
    FsRun.ApplySized(q, op);
    var q2 := FsRun.Apply(q, op);
    forall k: nat | k < |left| ensures JobOk(q2, now2, left[k]) {
      if k == i {
        IdleOk(q2, now2);
      } else {
        assert JobOk(q, now, jobs[k]);
        OthersOk(q, now, q2, now2, jobs[k], n);
      }
    }
    forall k: nat | k < |q.files| && Unlocked(jobs[i := Idle], k) && k != n ensures now2.files[k] == q2.files[k] {
      UnlockedBut(jobs, i, k);
    }
  }

  lemma UnlockedBut(jobs: seq<Job>, i: nat, n: nat)
    requires i < |jobs| && jobs[i].Busy? && OnFile(jobs[i].op) && jobs[i].op.inum != n && Unlocked(jobs[i := Idle], n)
    ensures Unlocked(jobs, n)
  {
    forall k: nat | k < |jobs| && jobs[k].Busy? && OnFile(jobs[k].op) ensures jobs[k].op.inum != n {
      assert k != i ==> jobs[i := Idle][k] == jobs[k];
    }
  }

  /** An operation without steps has finished when it begins. */
  lemma SerialRefused(q: FsRun.Plain, now: FsRun.Plain, jobs: seq<Job>, op: FsRun.Op)
    requires Serial(q, now, jobs) && OnFile(op) && FsRun.Callable(op, |now.files|) && Unlocked(jobs, op.inum)
    requires FsActs.Acts(now.files[op.inum], op) == []
    ensures FsRun.Fits(q, op) && FsRun.Apply(q, op) == q
  {
    hide FsRun.Sized, InFlight, FsActs.Acts, FsActs.Runs, FsActs.After, FsActs.Taken, FsRun.Apply, FsRun.Fits, JobOk;
    FsActs.ActsMake(q, op);
    FsActs.NoActs(q.files[op.inum]);
    assert q.files[op.inum := q.files[op.inum]] == q.files;
  }

  lemma SerialEvict(q: FsRun.Plain, now: FsRun.Plain, jobs: seq<Job>, n: nat)
    requires Serial(q, now, jobs) && n < |now.files| && Unlocked(jobs, n)
    ensures Serial(FsRun.Evicted(q, n), FsRun.Evicted(now, n), jobs)
  {
    hide InFlight, FsActs.Acts, FsActs.Runs, FsActs.After, FsActs.Taken, Forgotten;
    var q2, now2 := FsRun.Evicted(q, n), FsRun.Evicted(now, n);
    ForgottenSized(q.files[n]);
    forall k: nat | k < |jobs| ensures JobOk(q2, now2, jobs[k]) {
      assert JobOk(q, now, jobs[k]);
      OthersOk(q, now, q2, now2, jobs[k], n);
    }
  }

  lemma ForgottenSized(f: File)
    ensures |Forgotten(f).bytes| == |f.bytes|
  {
  }

  // ---- the invariant --------------------------------------------------------------------------------

  /** The committed groups make the files after the committed operations, and with what is logged since they make what
      memory has. */
  ghost predicate Inv(c: Config, s: Sys) {
    && GroupCommit.Inv(c.g, c.start, s.log) && |s.jobs| == |s.log.active|
    && s.kept <= |s.done| && Runs(c, s.done) && Runs(c, s.done[..s.kept])
    && Serial(FsRun.ApplyAll(c.files, s.done), s.now, s.jobs)
    && |c.start| == c.g.total && GroupCommit.InRange(c.g, GroupCommit.Flat(s.log.groups))
    && GroupCommit.InRange(c.g, GroupCommit.Flat(s.log.groups) + s.log.open)
    && OnBlocks(c.sb, c.g, GroupCommit.Replay(c.start, GroupCommit.Flat(s.log.groups)),
                FsRun.ApplyAll(c.files, s.done[..s.kept]))
    && OnBlocks(c.sb, c.g, GroupCommit.Replay(c.start, GroupCommit.Flat(s.log.groups) + s.log.open), s.now)
  }

  lemma SameHomeLayout(sb: Super, g: Geometry, d1: Disk, d2: Disk, fs: Fs)
    requires Layout(sb, g, d1, fs) && GroupCommit.SameHome(g, d1, d2)
    ensures Layout(sb, g, d2, fs)
  {
    hide InodeAt;
    forall i: nat | i < |fs.inodes| ensures InodeAt(d2[sb.inodestart + i / 8], i % 8) == fs.inodes[i] {
      assert d2[sb.inodestart + i / 8] == d1[sb.inodestart + i / 8];
    }
  }

  lemma SameHomeBlocks(sb: Super, g: Geometry, d1: Disk, d2: Disk, p: FsRun.Plain)
    requires OnBlocks(sb, g, d1, p) && GroupCommit.SameHome(g, d1, d2)
    ensures OnBlocks(sb, g, d2, p)
  {
    hide Layout, FsRun.Holds;
    var fs: Fs, disk, own :| Layout(sb, g, d1, Fs(fs.bitmap, disk, fs.data)) && FsRun.Holds(sb, fs, disk, own, p);
    SameHomeLayout(sb, g, d1, d2, Fs(fs.bitmap, disk, fs.data));
  }

  /** Memory is not on the disk: an inode that leaves the cache, or all of them, change nothing there. */
  lemma EvictBlocks(sb: Super, g: Geometry, d: Disk, p: FsRun.Plain, n: nat)
    requires OnBlocks(sb, g, d, p) && n < |p.files|
    ensures OnBlocks(sb, g, d, FsRun.Evicted(p, n))
  {
    hide Layout, FsRun.Holds, FsRun.Evicted;
    var fs: Fs, disk, own :| Layout(sb, g, d, Fs(fs.bitmap, disk, fs.data)) && FsRun.Holds(sb, fs, disk, own, p);
    HoldsSizes(sb, fs, disk, own, p);
    var fs2, own2 := FsRun.Dropping(sb, fs, disk, own, p, n);
    assert Fs(fs2.bitmap, disk, fs2.data) == Fs(fs.bitmap, disk, fs.data);
  }

  lemma HoldsSizes(sb: Super, fs: Fs, disk: seq<Dinode>, own: seq<Owner>, p: FsRun.Plain)
    requires FsRun.Holds(sb, fs, disk, own, p)
    ensures |disk| == |p.files|
  {
  }

  lemma RestartBlocks(sb: Super, g: Geometry, d: Disk, p: FsRun.Plain)
    requires OnBlocks(sb, g, d, p)
    ensures OnBlocks(sb, g, d, FsRun.Restarted(p))
  {
    hide Layout, FsRun.Holds, FsRun.EvictedAll;
    var fs: Fs, disk, own :| Layout(sb, g, d, Fs(fs.bitmap, disk, fs.data)) && FsRun.Holds(sb, fs, disk, own, p);
    var own2 := FsRun.DiskHas(sb, fs, disk, own, p);
    var fs2 := Fs(fs.bitmap, disk, fs.data);
    assert Layout(sb, g, d, Fs(fs2.bitmap, disk, fs2.data)) && FsRun.Holds(sb, fs2, disk, own2, FsRun.Restarted(p));
  }

  lemma {:induction false} RunsMore(p: FsRun.Plain, ops: seq<FsRun.Op>, op: FsRun.Op)
    requires FsRun.Sized(p) && FsRun.AllCallable(ops, |p.files|) && FsRun.AllFit(p, ops)
    requires FsRun.Callable(op, |p.files|) && FsRun.Fits(FsRun.ApplyAll(p, ops), op)
    ensures FsRun.AllCallable(ops + [op], |p.files|) && FsRun.AllFit(p, ops + [op])
    ensures FsRun.ApplyAll(p, ops + [op]) == FsRun.Apply(FsRun.ApplyAll(p, ops), op)
    decreases |ops|
  {
    hide FsRun.Fits, FsRun.Apply, FsRun.Sized;
    if |ops| > 0 {
      FsRun.ApplySized(p, ops[0]);
      RunsMore(FsRun.Apply(p, ops[0]), ops[1..], op);
      assert (ops + [op])[1..] == ops[1..] + [op];
    } else {
      FsRun.ApplySized(p, op);
      assert (ops + [op])[1..] == [];
    }
  }

  lemma {:induction false} LogAllKeeps(g: Geometry, base: Disk, s: GroupCommit.Sys, i: nat, puts: seq<Put>,
                                       t: GroupCommit.Sys)
    requires GroupCommit.Inv(g, base, s) && LogAll(g, s, i, puts, t)
    ensures GroupCommit.Inv(g, base, t) && t.groups == s.groups && t.mode == s.mode && |t.active| == |s.active|
    decreases |puts|
  {
    hide GroupCommit.Inv;
    if |puts| > 0 {
      var l := GroupCommit.LogWrite(i, puts[0].blk, puts[0].data);
      GroupCommit.Step(g, base, s, l);
      LogAllKeeps(g, base, GroupCommit.Next(g, s, l), i, puts[1..], t);
    }
  }

  lemma UpCache(g: Geometry, base: Disk, s: GroupCommit.Sys)
    requires GroupCommit.Inv(g, base, s) && s.mode.Up?
    ensures |base| == g.total && GroupCommit.InRange(g, GroupCommit.Flat(s.groups))
    ensures GroupCommit.InRange(g, GroupCommit.Flat(s.groups) + s.open)
    ensures GroupCommit.SameHome(g, s.cache, GroupCommit.Replay(base, GroupCommit.Flat(s.groups) + s.open))
  {
    hide GroupCommit.Flat, GroupCommit.Replay;
  }

  lemma ActiveUp(g: Geometry, base: Disk, s: GroupCommit.Sys)
    requires GroupCommit.Inv(g, base, s)
    ensures s.active != [] ==> s.mode.Up?
  {
  }

  lemma StartKeeps(c: Config, s: Sys, i: nat, op: FsRun.Op, t: Sys)
    requires Inv(c, s) && StartMoves(s, i, op, t)
    ensures Inv(c, t)
  {
    hide GroupCommit.Inv, GroupCommit.Flat, GroupCommit.Replay, FsRun.AllFit, FsRun.ApplyAll, OnBlocks, Serial,
         FsActs.Acts, FsRun.Fits, FsRun.Apply, Unlocked;
    var acts, q := FsActs.Acts(s.now.files[op.inum], op), FsRun.ApplyAll(c.files, s.done);
    SerialSizes(q, s.now, s.jobs);
    if acts == [] {
      SerialRefused(q, s.now, s.jobs, op);
      RunsMore(c.files, s.done, op);
      assert t.done[..t.kept] == s.done[..s.kept];
    } else {
      SerialStart(q, s.now, s.jobs, i, op, acts);
    }
  }

  lemma SerialSizes(q: FsRun.Plain, now: FsRun.Plain, jobs: seq<Job>)
    requires Serial(q, now, jobs)
    ensures |now.files| == |q.files| && FsRun.Sized(q)
  {
  }

  lemma CallKeeps(c: Config, s: Sys, i: nat, puts: seq<Put>, t: Sys)
    requires Inv(c, s) && CallMoves(c, s, i, puts, t)
    ensures Inv(c, t)
  {
    hide GroupCommit.Inv, GroupCommit.Flat, GroupCommit.Replay, FsRun.AllFit, FsRun.ApplyAll, OnBlocks, Serial, LogAll,
         FsActs.Acts, FsRun.Fits, FsRun.Apply, FsRun.Do, FsRun.Doable, FsRun.Room, FsActs.Sensible, FsActs.Takes,
         GroupCommit.SameHome;
    var q := FsRun.ApplyAll(c.files, s.done);
    SerialSizes(q, s.now, s.jobs);
    NextAct(q, s.now, s.jobs, i);
    LogAllKeeps(c.g, c.start, s.log, i, puts, t.log);
    ActiveUp(c.g, c.start, s.log);
    UpCache(c.g, c.start, t.log);
    SameHomeBlocks(c.sb, c.g, t.log.cache,
                   GroupCommit.Replay(c.start, GroupCommit.Flat(t.log.groups) + t.log.open), t.now);
    if |s.jobs[i].todo| == 1 {
      SerialLast(q, s.now, s.jobs, i, t.now);
      RunsMore(c.files, s.done, s.jobs[i].op);
      assert t.done[..t.kept] == s.done[..s.kept];
    } else {
      SerialCall(q, s.now, s.jobs, i, t.now, t.jobs[i]);
    }
  }

  lemma EvictKeeps(c: Config, s: Sys, n: nat, t: Sys)
    requires Inv(c, s) && n < |s.now.files| && Unlocked(s.jobs, n)
    requires t == s.(now := FsRun.Evicted(s.now, n), done := s.done + [FsRun.Forget(n)])
    ensures Inv(c, t)
  {
    hide GroupCommit.Inv, GroupCommit.Flat, GroupCommit.Replay, FsRun.AllFit, FsRun.ApplyAll, OnBlocks, Serial,
         FsRun.Evicted, Unlocked;
    var q := FsRun.ApplyAll(c.files, s.done);
    SerialSizes(q, s.now, s.jobs);
    ForgetFits(q, n);
    RunsMore(c.files, s.done, FsRun.Forget(n));
    SerialEvict(q, s.now, s.jobs, n);
    EvictBlocks(c.sb, c.g, GroupCommit.Replay(c.start, GroupCommit.Flat(s.log.groups) + s.log.open), s.now, n);
    assert t.done[..t.kept] == s.done[..s.kept];
  }

  lemma ForgetFits(p: FsRun.Plain, n: nat)
    requires FsRun.Sized(p) && n < |p.files|
    ensures FsRun.Fits(p, FsRun.Forget(n)) && FsRun.Apply(p, FsRun.Forget(n)) == FsRun.Evicted(p, n)
  {
    assert {} - p.files[n].refs == {};
  }

  /** What a step of the log other than log_write does to the groups, and to the operations under way. */
  lemma LogStep(g: Geometry, base: Disk, s: GroupCommit.Sys, l: GroupCommit.Label)
    requires GroupCommit.Inv(g, base, s) && GroupCommit.Enabled(g, s, l) && !l.LogWrite?
    ensures var t := GroupCommit.Next(g, s, l);
            || (l.Crash? && t.groups == s.groups && t.open == [] && t.active == [])
            || (!l.Crash? && t.groups == s.groups && t.open == s.open
                && |t.active| == if l.BeginOp? then |s.active| + 1 else if l.EndOp? then |s.active| - 1 else |s.active|)
            || (l.DiskWrite? && t.groups == s.groups + [s.open] && t.open == [] && t.active == s.active == [])
  {
    hide GroupCommit.Storage, GroupCommit.Fates, GroupCommit.Unspent;
  }

  lemma FlatWhole(g: Geometry, base: Disk, s: GroupCommit.Sys)
    requires GroupCommit.Inv(g, base, s)
    ensures |base| == g.total && GroupCommit.InRange(g, GroupCommit.Flat(s.groups))
    ensures GroupCommit.InRange(g, GroupCommit.Flat(s.groups) + s.open)
  {
    hide GroupCommit.Flat;
  }

  lemma CrashKeeps(c: Config, s: Sys, t: Sys)
    requires Inv(c, s) && LogMoves(c, s, GroupCommit.Crash, t)
    ensures Inv(c, t)
  {
    hide GroupCommit.Inv, GroupCommit.Flat, GroupCommit.Replay, FsRun.AllFit, FsRun.ApplyAll, OnBlocks, Serial,
         GroupCommit.Wf, GroupCommit.Enabled, GroupCommit.Next, FsRun.EvictedAll, FsRun.Sized;
    GroupCommit.Step(c.g, c.start, s.log, GroupCommit.Crash);
    LogStep(c.g, c.start, s.log, GroupCommit.Crash);
    FlatWhole(c.g, c.start, t.log);
    var first, flat := s.done[..s.kept], GroupCommit.Flat(t.log.groups);
    var q := FsRun.ApplyAll(c.files, first);
    RestartFits(q);
    RunsMore(c.files, first, FsRun.Restart);
    RestartBlocks(c.sb, c.g, GroupCommit.Replay(c.start, flat), q);
    SerialSelf(FsRun.Restarted(q));
    assert flat + [] == flat && t.done[..t.kept] == t.done;
  }

  lemma RestartFits(p: FsRun.Plain)
    requires FsRun.Sized(p)
    ensures FsRun.Fits(p, FsRun.Restart) && FsRun.Apply(p, FsRun.Restart) == FsRun.Restarted(p)
    ensures FsRun.Sized(FsRun.Restarted(p))
  {
    FsRun.EvictedSized(p, |p.files|);
  }

  lemma LogKeeps(c: Config, s: Sys, l: GroupCommit.Label, t: Sys)
    requires Inv(c, s) && LogMoves(c, s, l, t) && !l.Crash?
    ensures Inv(c, t)
  {
    hide GroupCommit.Inv, GroupCommit.Flat, GroupCommit.Replay, FsRun.AllFit, FsRun.ApplyAll, OnBlocks, Serial,
         GroupCommit.InRange, GroupCommit.Wf, GroupCommit.Enabled, GroupCommit.Next, FsRun.Sized;
    GroupCommit.Step(c.g, c.start, s.log, l);
    LogStep(c.g, c.start, s.log, l);
    FlatWhole(c.g, c.start, t.log);
    var q := FsRun.ApplyAll(c.files, s.done);
    if l.BeginOp? {
      SerialBegin(q, s.now, s.jobs);
    } else if l.EndOp? {
      SerialEnd(q, s.now, s.jobs, l.i);
    }
    if |t.log.groups| > |s.log.groups| {
      SerialNone(q, s.now);
      GroupCommit.FlatSnoc(s.log.groups, s.log.open);
      var flat := GroupCommit.Flat(t.log.groups);
      assert flat + [] == flat && s.done[..|s.done|] == s.done;
    }
  }

  /** Every step keeps it. */
  lemma Step(c: Config, s: Sys, l: Label, t: Sys)
    requires Inv(c, s) && Moves(c, s, l, t)
    ensures Inv(c, t)
  {
    hide Inv, Runs, LogMoves, StartMoves, CallMoves, Unlocked;
    match l
    case Log(m) =>
      if m.Crash? {
        CrashKeeps(c, s, t);
      } else {
        LogKeeps(c, s, m, t);
      }
    case Start(i, op) => StartKeeps(c, s, i, op, t);
    case Call(i, puts) => CallKeeps(c, s, i, puts, t);
    case Evict(n) => EvictKeeps(c, s, n, t);
  }

  // ---- whole runs -----------------------------------------------------------------------------------

  ghost predicate Reaches(c: Config, ls: seq<Label>, t: Sys) {
    if ls == [] then t == Sys(GroupCommit.Boot(c.start), [], c.files, [], 0)
    else exists s ::
      && Reaches(c, ls[..|ls| - 1], s) && s.kept <= |s.done| && Runs(c, s.done[..s.kept])
      && Moves(c, s, ls[|ls| - 1], t)
  }

  lemma BootInv(c: Config)
    requires Started(c)
    ensures Inv(c, Sys(GroupCommit.Boot(c.start), [], c.files, [], 0))
  {
    hide GroupCommit.Inv, OnBlocks, FsRun.Sized;
    GroupCommit.BootInv(c.g, c.start);
    SerialSelf(c.files);
    var s := GroupCommit.Boot(c.start);
    assert GroupCommit.Flat(s.groups) + s.open == [];
  }

  lemma {:induction false} RunKeeps(c: Config, ls: seq<Label>, t: Sys)
    requires Started(c) && Reaches(c, ls, t)
    ensures Inv(c, t)
  {
    hide Inv, Started, Moves, Runs;
    if ls == [] {
      BootInv(c);
    } else {
      var s :| Reaches(c, ls[..|ls| - 1], s) && s.kept <= |s.done| && Runs(c, s.done[..s.kept])
               && Moves(c, s, ls[|ls| - 1], t);
      RunKeeps(c, ls[..|ls| - 1], s);
      Step(c, s, ls[|ls| - 1], t);
    }
  }

  /** What is on the blocks of a disk by themselves: these files, with block ownership exactly if no block is lost. */
  ghost predicate Found(sb: Super, g: Geometry, d: Disk, p: FsRun.Plain) {
    exists fs: Fs, own ::
      && Layout(sb, g, d, fs) && FsRun.Holds(sb, fs, fs.inodes, own, p)
      && (Owned(sb, fs) <==> p.lost == 0)
  }

  lemma FoundOn(sb: Super, g: Geometry, d: Disk, p: FsRun.Plain)
    requires OnBlocks(sb, g, d, p)
    ensures Found(sb, g, d, FsRun.Restarted(p))
  {
    hide Layout, FsRun.Holds, FsRun.EvictedAll, Owned;
    var fs: Fs, disk, own :| Layout(sb, g, d, Fs(fs.bitmap, disk, fs.data)) && FsRun.Holds(sb, fs, disk, own, p);
    var own2 := FsRun.DiskHas(sb, fs, disk, own, p);
    var fs2 := Fs(fs.bitmap, disk, fs.data);
    assert Layout(sb, g, d, fs2) && FsRun.Holds(sb, fs2, fs2.inodes, own2, FsRun.Restarted(p));
  }

  /** At every point of every run, a crash and recovery leave on the disk the files as a restart finds them after the
      committed operations, which are the first of those that finished, each of them whole.  Every block is owned
      exactly if these operations have lost none. */
  lemma CrashConsistent(c: Config, ls: seq<Label>, t: Sys)
    requires Started(c) && Reaches(c, ls, t)
    ensures HeadOk(c.g, t.log.disk) && t.kept <= |t.done| && Runs(c, t.done[..t.kept])
    ensures Found(c.sb, c.g, Recover(c.g, t.log.disk), FsRun.Restarted(FsRun.ApplyAll(c.files, t.done[..t.kept])))
  {
    hide OnBlocks, Recover, GroupCommit.Replay, GroupCommit.Flat, GroupCommit.Storage, GroupCommit.Fates, Serial,
         GroupCommit.Reservation, Reaches, FsRun.ApplyAll, FsRun.AllFit, GroupCommit.SameHome, Found, FsRun.EvictedAll;
    RunKeeps(c, ls, t);
    GroupCommit.StorageCrash(c.g, c.start, t.log);
    SameHomeSym(c.g, Recover(c.g, t.log.disk), GroupCommit.Replay(c.start, GroupCommit.Flat(t.log.groups)));
    var p := FsRun.ApplyAll(c.files, t.done[..t.kept]);
    SameHomeBlocks(c.sb, c.g, GroupCommit.Replay(c.start, GroupCommit.Flat(t.log.groups)), Recover(c.g, t.log.disk), p);
    FoundOn(c.sb, c.g, Recover(c.g, t.log.disk), p);
  }

  lemma SameHomeSym(g: Geometry, a: Disk, b: Disk)
    requires GroupCommit.SameHome(g, a, b)
    ensures GroupCommit.SameHome(g, b, a)
  {
  }

  /** With no operation of the log running and no commit under way, nothing is left to lose but what memory alone has:
      recovery would bring back the files after all that was done. */
  lemma AllDurable(c: Config, ls: seq<Label>, t: Sys)
    requires Started(c) && Reaches(c, ls, t) && t.log.mode.Up? && t.log.active == []
    ensures HeadOk(c.g, t.log.disk) && Runs(c, t.done) && t.now == FsRun.ApplyAll(c.files, t.done)
    ensures Found(c.sb, c.g, Recover(c.g, t.log.disk), FsRun.Restarted(t.now))
  {
    hide OnBlocks, Recover, GroupCommit.Replay, GroupCommit.Flat, GroupCommit.Storage, GroupCommit.Fates, Serial,
         GroupCommit.Reservation, Reaches, FsRun.ApplyAll, FsRun.AllFit, GroupCommit.SameHome, Found, FsRun.EvictedAll;
    RunKeeps(c, ls, t);
    RunSettled(c, ls, t);
    GroupCommit.StorageCrash(c.g, c.start, t.log);
    var flat := GroupCommit.Flat(t.log.groups);
    assert flat + t.log.open == flat;
    assert t.jobs == [];
    SerialNone(FsRun.ApplyAll(c.files, t.done), t.now);
    SameHomeSym(c.g, Recover(c.g, t.log.disk), GroupCommit.Replay(c.start, flat));
    SameHomeBlocks(c.sb, c.g, GroupCommit.Replay(c.start, flat), Recover(c.g, t.log.disk), t.now);
    FoundOn(c.sb, c.g, Recover(c.g, t.log.disk), t.now);
  }

  lemma {:induction false} LogAllSettled(g: Geometry, base: Disk, s: GroupCommit.Sys, i: nat, puts: seq<Put>,
                                         t: GroupCommit.Sys)
    requires GroupCommit.Inv(g, base, s) && GroupCommit.Settled(s) && LogAll(g, s, i, puts, t)
    ensures GroupCommit.Settled(t)
    decreases |puts|
  {
    hide GroupCommit.Inv, GroupCommit.Wf, GroupCommit.Enabled, GroupCommit.Settled;
    if |puts| > 0 {
      var l := GroupCommit.LogWrite(i, puts[0].blk, puts[0].data);
      GroupCommit.Step(g, base, s, l);
      GroupCommit.SettledStep(g, base, s, l);
      LogAllSettled(g, base, GroupCommit.Next(g, s, l), i, puts[1..], t);
    }
  }

  lemma {:induction false} RunSettled(c: Config, ls: seq<Label>, t: Sys)
    requires Started(c) && Reaches(c, ls, t)
    ensures GroupCommit.Settled(t.log)
  {
    hide GroupCommit.Inv, Started, OnBlocks, FsRun.ApplyAll, FsRun.AllFit, LogAll, Serial, FsRun.Doable, FsRun.Room,
         FsRun.Do, FsActs.Acts, FsActs.Sensible, FsActs.Takes, FsRun.Evicted, FsRun.EvictedAll;
    if ls != [] {
      var s :| Reaches(c, ls[..|ls| - 1], s) && s.kept <= |s.done| && Runs(c, s.done[..s.kept])
               && Moves(c, s, ls[|ls| - 1], t);
      RunKeeps(c, ls[..|ls| - 1], s);
      RunSettled(c, ls[..|ls| - 1], s);
      match ls[|ls| - 1]
      case Log(l) => GroupCommit.SettledStep(c.g, c.start, s.log, l);
      case Start(i, op) =>
      case Call(i, puts) => LogAllSettled(c.g, c.start, s.log, i, puts, t.log);
      case Evict(n) =>
    }
  }

  /** From files without holes no run, with crashes wherever they come, ever loses a block: recovery brings back just
      the files after the committed operations, and every block is owned. */
  lemma SoundRecovers(c: Config, ls: seq<Label>, t: Sys)
    requires Started(c) && Reaches(c, ls, t) && FsLaws.Sound(c.files)
    ensures HeadOk(c.g, t.log.disk) && t.kept <= |t.done| && Runs(c, t.done[..t.kept])
    ensures FsRun.ApplyAll(c.files, t.done[..t.kept]).lost == 0
    ensures Found(c.sb, c.g, Recover(c.g, t.log.disk), FsRun.ApplyAll(c.files, t.done[..t.kept]))
  {
    hide Found, Started, Reaches, FsRun.ApplyAll, FsRun.AllFit, FsRun.EvictedAll, Recover;
    CrashConsistent(c, ls, t);
    FsLaws.NeverLost(c.files, t.done[..t.kept]);
  }

  // ---- that the code makes such steps ----------------------------------------------------------

  /** The blocks with the log_writes applied. */
  function PutAll(d: Disk, puts: seq<Put>): (r: Disk)
    requires forall k | 0 <= k < |puts| :: puts[k].blk < |d|
    ensures |r| == |d|
    decreases |puts|
  {
    if |puts| == 0 then d else PutAll(d[puts[0].blk := puts[0].data], puts[1..])
  }

  lemma {:induction false} LogAllCache(g: Geometry, s: GroupCommit.Sys, i: nat, puts: seq<Put>, t: GroupCommit.Sys)
    requires LogAll(g, s, i, puts, t)
    ensures forall k | 0 <= k < |puts| :: puts[k].blk < |s.cache|
    ensures t.cache == PutAll(s.cache, puts)
    decreases |puts|
  {
    if |puts| > 0 {
      var l := GroupCommit.LogWrite(i, puts[0].blk, puts[0].data);
      LogAllCache(g, GroupCommit.Next(g, s, l), i, puts[1..], t);
      forall k | 0 <= k < |puts| ensures puts[k].blk < |s.cache| {
        assert k > 0 ==> puts[k] == puts[1..][k - 1];
      }
    }
  }

  /** The blocks of d2 that are listed, in turn, make d1 into d2, if the two differ nowhere else. */
  ghost function PutsOf(d2: Disk, blks: seq<nat>): (r: seq<Put>)
    requires forall k | 0 <= k < |blks| :: blks[k] < |d2|
    ensures |r| == |blks| && forall k | 0 <= k < |blks| :: r[k] == Put(blks[k], d2[blks[k]])
  {
    if |blks| == 0 then [] else [Put(blks[0], d2[blks[0]])] + PutsOf(d2, blks[1..])
  }

  lemma {:induction false} PutsMake(d1: Disk, d2: Disk, blks: seq<nat>)
    requires |d1| == |d2| && (forall k | 0 <= k < |blks| :: blks[k] < |d2|)
    requires forall b: nat | b < |d1| && d1[b] != d2[b] :: b in blks
    ensures PutAll(d1, PutsOf(d2, blks)) == d2
    decreases |blks|
  {
    if |blks| > 0 {
      assert PutsOf(d2, blks)[1..] == PutsOf(d2, blks[1..]);
      PutsMake(d1[blks[0] := d2[blks[0]]], d2, blks[1..]);
    }
  }

  lemma {:induction false} Listing(s: set<nat>) returns (q: seq<nat>)
    ensures |q| == |s| && (forall b :: b in q <==> b in s) && forall k | 0 <= k < |q| :: q[k] in s
  {
    if s == {} {
      q := [];
    } else {
      var b :| b in s;
      var rest := Listing(s - {b});
      q := [b] + rest;
    }
  }

  /** The log_writes can be made by an operation of the log that has the reservation for them, if the log has room. */
  lemma {:induction false} LogAllMade(g: Geometry, base: Disk, s: GroupCommit.Sys, i: nat, puts: seq<Put>)
    returns (t: GroupCommit.Sys)
    requires GroupCommit.Inv(g, base, s) && i < |s.active| && forall k | 0 <= k < |puts| :: g.Home(puts[k].blk)
    requires |s.active[i].blocks| + |puts| <= g.maxop && |s.lh| + |puts| <= g.cap && |s.lh| + |puts| < g.size
    ensures LogAll(g, s, i, puts, t)
    decreases |puts|
  {
    if |puts| == 0 {
      t := s;
    } else {
      hide GroupCommit.Storage, GroupCommit.Fates, GroupCommit.Reservation;
      var l := GroupCommit.LogWrite(i, puts[0].blk, puts[0].data);
      GrowsByOne(s.active[i].blocks, puts[0].blk);
      GroupCommit.Step(g, base, s, l);
      t := LogAllMade(g, base, GroupCommit.Next(g, s, l), i, puts[1..]);
    }
  }

  lemma GrowsByOne(s: set<nat>, x: nat)
    ensures |s + {x}| <= |s| + 1
  {
    assert x in s ==> s + {x} == s;
  }

  /** The room that begin_op reserves: an operation finds what it has left of MAXOPBLOCKS below LOGSIZE. */
  lemma Reserved(g: Geometry, base: Disk, s: GroupCommit.Sys, i: nat)
    requires GroupCommit.Inv(g, base, s) && i < |s.active|
    ensures |s.lh| + g.maxop - |s.active[i].blocks| <= g.cap
  {
    hide GroupCommit.Storage, GroupCommit.Fates, GroupCommit.Unspent;
    GroupCommit.UnspentRemove(g.maxop, s.active, i);
    GroupCommit.UnspentNonNegative(g.maxop, s.active[..i] + s.active[i + 1..]);
  }

  /** The changed blocks of a step, as log_writes. */
  lemma StepPuts(sb: Super, g: Geometry, d: Disk, fs1: Fs, fs2: Fs, logged: set<nat>) returns (puts: seq<Put>)
    requires Layout(sb, g, d, fs1) && FsRun.Recorded(sb, fs1, fs2, logged) && Wf(sb, fs2)
    ensures |puts| <= |logged|
    ensures forall k | 0 <= k < |puts| :: puts[k].blk in logged && g.Home(puts[k].blk) && puts[k].blk < |d|
    ensures Layout(sb, g, PutAll(d, puts), fs2)
  {
    hide InodeFits, InodeAt, PutInodes, Logs, KindsKept;
    LoggedLayout(sb, g, d, fs1, fs2, logged);
    var d2 := Relaid(sb, d, fs2, logged, |d|);
    var some := set b | b in logged && sb.inodestart <= b < |d|;
    SubsetSize(some, logged);
    var blks := Listing(some);
    PutsMake(d, d2, blks);
    puts := PutsOf(d2, blks);
  }

  /** The next step of a job makes sense. */
  lemma NextSensible(q: FsRun.Plain, now: FsRun.Plain, jobs: seq<Job>, i: nat)
    requires Serial(q, now, jobs) && i < |jobs| && jobs[i].Busy?
    ensures |jobs[i].todo| > 0 && jobs[i].todo[0].inum < |now.files|
    ensures FsActs.Sensible(now.files[jobs[i].todo[0].inum], jobs[i].todo[0]) && FsRun.Doable(now, jobs[i].todo[0])
  {
    hide InFlight, FsActs.Acts, FsActs.After, FsActs.Taken, FsActs.ActOn, FsActs.Takes, FsRun.Apply, FsRun.Fits,
         FsRun.Sized,
         FsActs.Sensible, FsRun.Doable;
    NextAct(q, now, jobs, i);
    var Busy(op, past, todo, taken) := jobs[i];
    assert JobOk(q, now, jobs[i]);
    FsActs.ActsMake(q, op);
    FsActs.RunsTwice(q.files[op.inum], past, todo);
    FsActs.DoIs(now, todo[0]);
  }

  /** The step that the code makes is such a step, if the cache holds what the code sees, and the blocks it logs keep to
      MAXOPBLOCKS and find room in the log area; and again the cache holds what the code sees. */
  method Operate(disk: FsDisk, a: FsRun.Act, ghost c: Config, ghost s: Sys, ghost i: nat)
    returns (ok: bool, ghost puts: seq<Put>, ghost t: Sys)
    requires Inv(c, s) && disk.sb == c.sb && i < |s.jobs| && s.jobs[i].Busy? && a == s.jobs[i].todo[0]
    requires Layout(c.sb, c.g, s.log.cache, disk.OnDisk()) && FsRun.Shows(disk, s.now)
    modifies disk
    ensures ok <==> a.inum < |s.now.files| && FsRun.Room(s.now, a)
    ensures ok ==> |disk.logged| <= FsRun.Price(a, |disk.bitmap|) && |disk.bitmap| == old(|disk.bitmap|)
    ensures ok && |s.log.active[i].blocks| + |disk.logged| <= c.g.maxop && |s.log.lh| + |disk.logged| < c.g.size ==>
              && Moves(c, s, Call(i, puts), t) && Inv(c, t)
              && Layout(c.sb, c.g, t.log.cache, disk.OnDisk()) && FsRun.Shows(disk, t.now)
  {
    hide Layout, FsRun.Recorded, FsRun.Holds, FsRun.ApplyAll, FsRun.AllFit, GroupCommit.Inv, Wf, FsRun.Do, FsRun.Room,
         FsRun.Price, LogAll, OnBlocks, PutAll, GroupCommit.Replay, GroupCommit.Flat, Serial, FsActs.Sensible,
           FsRun.Doable,
         FsActs.Takes;
    puts, t := [], s;
    ghost var fs1 := disk.OnDisk();
    NextSensible(FsRun.ApplyAll(c.files, s.done), s.now, s.jobs, i);
    ok := FsRun.Step(disk, a, s.now);
    if !ok {
      return;
    }
    SizesKept(c.sb, fs1, disk.OnDisk(), disk.logged);
    DiskWf(disk, FsRun.Do(s.now, a));
    puts := StepPuts(c.sb, c.g, s.log.cache, fs1, disk.OnDisk(), disk.logged);
    Reserved(c.g, c.start, s.log, i);
    if |s.log.active[i].blocks| + |disk.logged| <= c.g.maxop && |s.log.lh| + |disk.logged| < c.g.size {
      ghost var log := LogAllMade(c.g, c.start, s.log, i, puts);
      LogAllCache(c.g, s.log, i, puts, log);
      ghost var Busy(op, past, todo, taken) := s.jobs[i];
      ghost var last := |todo| == 1;
      ghost var j := if last then Idle
                     else Busy(op, past + [a], todo[1..], taken + FsActs.Takes(s.now.files[a.inum], a));
      t := Sys(log, s.jobs[i := j], FsRun.Do(s.now, a), if last then s.done + [op] else s.done, s.kept);
      Named(c.sb, c.g, log.cache, disk, t.now);
      CallKeeps(c, s, i, puts, t);
    }
  }

  lemma Named(sb: Super, g: Geometry, d: Disk, disk: FsDisk, p: FsRun.Plain)
    requires disk.sb == sb && Layout(sb, g, d, disk.OnDisk()) && FsRun.Shows(disk, p)
    ensures OnBlocks(sb, g, d, p)
  {
    hide Layout, FsRun.Holds;
    var fs := Fs(disk.bitmap, disk.cached, disk.data);
    assert Layout(sb, g, d, Fs(fs.bitmap, disk.inodes, fs.data)) && FsRun.Holds(sb, fs, disk.inodes, disk.own, p);
  }

  lemma SizesKept(sb: Super, fs1: Fs, fs2: Fs, logged: set<nat>)
    requires FsRun.Recorded(sb, fs1, fs2, logged)
    ensures |fs1.bitmap| == |fs2.bitmap|
  {
  }

  lemma DiskWf(disk: FsDisk, p: FsRun.Plain)
    requires FsRun.Shows(disk, p)
    ensures Wf(disk.sb, disk.OnDisk())
  {
    hide Ref, Owns, FileAt, FreeSet, LostSet;
    var fs := Fs(disk.bitmap, disk.cached, disk.data);
    forall i: nat | i < |disk.inodes| ensures Behind(disk.inodes[i], fs.inodes[i]) {}
  }

  // ---- that mkfs makes such a disk ------------------------------------------------------------------

  ghost function AllBlocks(n: nat): (r: set<nat>)
    ensures forall b: nat :: b in r <==> b < n
  {
    if n == 0 then {} else AllBlocks(n - 1) + {n - 1}
  }

  /** mkfs: the image on the blocks of the disk, with an empty log. */
  method MkfsDisk(names: seq<seq<Byte>>, files: seq<seq<Byte>>) returns (ok: bool, disk: FsDisk?, ghost c: Config)
    requires |names| == |files| <= Mkfs.NINODES - 2
    ensures ok <==> Mkfs.Fit(files)
    ensures ok ==> Started(c) && c.sb == Mkfs.SUPER && c.g == GroupCommit.Sized(30)
    ensures ok ==> c.files == FsRun.Image(names, files)
    ensures ok ==> disk != null && fresh(disk) && disk.sb == c.sb && |disk.bitmap| == Mkfs.NBITMAP
    ensures ok ==> Layout(c.sb, c.g, c.start, disk.OnDisk()) && FsRun.Shows(disk, c.files)
  {
    hide FsRun.Holds, Layout, Mkfs.Fit, FsRun.Sized, Mkfs.Made, NoneLost, Inv, FreeSet;
    disk := null;
    var img;
    ghost var own;
    ok, img, own := Mkfs.Build(names, files);
    c := Config(Mkfs.SUPER, GroupCommit.Sized(30), [], FsRun.Plain([], 0, 0));
    if !ok {
      return;
    }
    disk := new FsDisk(Mkfs.SUPER, img, own);
    FsRun.ImageHolds(img, own, names, files);
    FsRun.ImageSized(names, files);
    MadeShape(img, names, files);
    ghost var start := BlankDisk(img);
    c := Config(Mkfs.SUPER, GroupCommit.Sized(30), start, FsRun.Image(names, files));
    Named(c.sb, c.g, c.start, disk, c.files);
  }

  lemma MadeShape(img: Fs, names: seq<seq<Byte>>, files: seq<seq<Byte>>)
    requires Mkfs.Made(img, names, files)
    ensures Wf(Mkfs.SUPER, img) && Mkfs.AllSimple(img.inodes) && |img.inodes| == Mkfs.NINODEBLOCKS * 8
  {
  }

  lemma BlankDisk(img: Fs) returns (start: Disk)
    requires Wf(Mkfs.SUPER, img) && Mkfs.AllSimple(img.inodes)
    requires |img.inodes| == Mkfs.NINODEBLOCKS * 8 && |img.bitmap| == Mkfs.NBITMAP
    ensures Layout(Mkfs.SUPER, GroupCommit.Sized(30), start, img) && |start| == Mkfs.FSSIZE && ReadCount(start[2]) == 0
  {
    hide InodeAt, PutInodes, InodeFits, Zeros, WordAt;
    var blank, all := Copies(Zero(), Mkfs.FSSIZE), AllBlocks(Mkfs.FSSIZE);
    SimpleFits(img);
    ZeroCount();
    FirstLayout(Mkfs.SUPER, GroupCommit.Sized(30), blank, img, all);
    start := Relaid(Mkfs.SUPER, blank, img, all, Mkfs.FSSIZE);
  }

  lemma SimpleFits(img: Fs)
    requires Wf(Mkfs.SUPER, img) && Mkfs.AllSimple(img.inodes)
    ensures forall i | 0 <= i < |img.inodes| :: InodeFits(img.inodes[i])
  {
  }

  lemma ZeroCount()
    ensures ReadCount(Zero()) == 0
  {
  }
}
