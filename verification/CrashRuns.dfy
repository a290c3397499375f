/** Runs of the file system on the log: one that loses a block, on a disk that mkfs makes, and what a crash leaves of
    the chunks of filewrite. */
module CrashRuns {
  import opened Seqs
  import opened Blocks
  import opened FsModel
  import opened LogPlan
  import opened DiskLayout
  import opened FileOps
  import opened CrashFs
  import Mkfs
  import FsRun
  import FsActs
  import FsLaws
  import FileWrite
  import GroupCommit

  lemma ReachesMore(c: Config, ls: seq<Label>, s: Sys, l: Label, t: Sys)
    requires Reaches(c, ls, s) && s.kept <= |s.done| && Runs(c, s.done[..s.kept]) && Moves(c, s, l, t)
    ensures Reaches(c, ls + [l], t)
  {
    hide Moves, Runs;
    assert (ls + [l])[..|ls|] == ls;
  }

  lemma InvRuns(c: Config, s: Sys)
    requires CrashFs.Inv(c, s)
    ensures s.kept <= |s.done| && Runs(c, s.done[..s.kept]) && GroupCommit.Inv(c.g, c.start, s.log)
    ensures GroupCommit.Wf(c.g, s.log) && |s.jobs| == |s.log.active|
  {
    hide Serial, OnBlocks, GroupCommit.Storage, GroupCommit.Fates, GroupCommit.Reservation, GroupCommit.Replay;
  }

  /** A step of the log that leaves the jobs as they are. */
  lemma LogOn(c: Config, ls: seq<Label>, s: Sys, l: GroupCommit.Label) returns (t: Sys)
    requires Started(c) && Reaches(c, ls, s) && CrashFs.Inv(c, s) && GroupCommit.Wf(c.g, s.log)
    requires GroupCommit.Enabled(c.g, s.log, l)
    requires l.DiskWrite? || l.FinishCommit?
    ensures Reaches(c, ls + [Log(l)], t) && CrashFs.Inv(c, t) && t.log == GroupCommit.Next(c.g, s.log, l)
    ensures t.jobs == s.jobs && t.done == s.done && t.now == s.now
    ensures t.kept == if |t.log.groups| > |s.log.groups| then |s.done| else s.kept
  {
    hide CrashFs.Inv, Started, Reaches, Runs, GroupCommit.Wf, GroupCommit.Enabled, GroupCommit.Next;
    InvRuns(c, s);
    var log := GroupCommit.Next(c.g, s.log, l);
    t := Sys(log, s.jobs, s.now, s.done, if |log.groups| > |s.log.groups| then |s.done| else s.kept);
    assert Moves(c, s, Log(l), t);
    ReachesMore(c, ls, s, Log(l), t);
    CrashFs.Step(c, s, Log(l), t);
  }

  // ---- when a step can be taken ----------------------------------------------------------------------------

  /** A step of the log other than log_write can be taken whenever the log allows it; end_op, by an operation that is
      not in the middle of one on a file. */
  lemma LogAdmits(c: Config, ls: seq<Label>, s: Sys, l: GroupCommit.Label) returns (t: Sys)
    requires Started(c) && Reaches(c, ls, s) && !l.LogWrite?
    requires GroupCommit.Wf(c.g, s.log) && GroupCommit.Enabled(c.g, s.log, l)
    requires l.EndOp? ==> l.i < |s.jobs| && s.jobs[l.i].Idle?
    ensures Reaches(c, ls + [Log(l)], t) && t.log == GroupCommit.Next(c.g, s.log, l)
  {
    hide CrashFs.Inv, Started, Reaches, Runs, GroupCommit.Wf, GroupCommit.Enabled, GroupCommit.Next, FsRun.ApplyAll,
         FsRun.EvictedAll, FsRun.AllFit, FsRun.Sized;
    CrashFs.RunKeeps(c, ls, s);
    InvRuns(c, s);
    var log := GroupCommit.Next(c.g, s.log, l);
    if l.Crash? {
      RunsApply(c, s);
      var p := FsRun.Restarted(FsRun.ApplyAll(c.files, s.done[..s.kept]));
      t := Sys(log, [], p, s.done[..s.kept] + [FsRun.Restart], s.kept + 1);
    } else {
      var jobs := match l
                  case BeginOp => s.jobs + [Idle]
                  case EndOp(i) => RemoveAt(s.jobs, i)
                  case _ => s.jobs;
      t := Sys(log, jobs, s.now, s.done, if |log.groups| > |s.log.groups| then |s.done| else s.kept);
    }
    assert Moves(c, s, Log(l), t);
    ReachesMore(c, ls, s, Log(l), t);
  }

  lemma RunsApply(c: Config, s: Sys)
    requires s.kept <= |s.done| && Runs(c, s.done[..s.kept])
    ensures FsRun.Sized(c.files) && FsRun.AllCallable(s.done[..s.kept], |c.files.files|)
    ensures FsRun.AllFit(c.files, s.done[..s.kept])
  {
  }

  /** An operation of the log that is doing nothing else can begin any write, read or truncation of any file that no
      other one is in the middle of. */
  lemma StartAdmits(c: Config, ls: seq<Label>, s: Sys, i: nat, op: FsRun.Op) returns (t: Sys)
    requires Started(c) && Reaches(c, ls, s) && i < |s.jobs| && s.jobs[i].Idle?
    requires (op.Write? || op.Read? || op.Truncate?) && FsRun.Callable(op, |s.now.files|)
    requires forall j: nat | j < |s.jobs| && s.jobs[j].Busy? && OnFile(s.jobs[j].op) :: s.jobs[j].op.inum != op.inum
    ensures Reaches(c, ls + [Start(i, op)], t) && t.log == s.log && t.now == s.now
  {
    hide CrashFs.Inv, Started, Reaches, Runs, FsActs.Acts;
    CrashFs.RunKeeps(c, ls, s);
    InvRuns(c, s);
    var acts := FsActs.Acts(s.now.files[op.inum], op);
    t := if acts == [] then s.(done := s.done + [op]) else s.(jobs := s.jobs[i := Busy(op, [], acts, 0)]);
    assert Moves(c, s, Start(i, op), t);
    ReachesMore(c, ls, s, Start(i, op), t);
  }

  /** An inode that no operation is in the middle of can leave the cache at any time. */
  lemma EvictAdmits(c: Config, ls: seq<Label>, s: Sys, n: nat) returns (t: Sys)
    requires Started(c) && Reaches(c, ls, s) && n < |s.now.files| && !s.log.mode.Recovering?
    requires forall j: nat | j < |s.jobs| && s.jobs[j].Busy? && OnFile(s.jobs[j].op) :: s.jobs[j].op.inum != n
    ensures Reaches(c, ls + [Evict(n)], t) && t.log == s.log && t.now == FsRun.Evicted(s.now, n)
  {
    hide CrashFs.Inv, Started, Reaches, Runs, FsRun.Evicted;
    CrashFs.RunKeeps(c, ls, s);
    InvRuns(c, s);
    t := s.(now := FsRun.Evicted(s.now, n), done := s.done + [FsRun.Forget(n)]);
    assert Moves(c, s, Evict(n), t);
    ReachesMore(c, ls, s, Evict(n), t);
  }

  /** A commit under way can come to its end. */
  lemma {:induction false} CommitEnds(c: Config, ls: seq<Label>, s: Sys) returns (ms: seq<Label>, t: Sys)
    requires Started(c) && Reaches(c, ls, s) && CrashFs.Inv(c, s) && s.log.mode.Committing?
    requires GroupCommit.Wf(c.g, s.log)
    ensures Reaches(c, ms, t) && CrashFs.Inv(c, t) && t.log.mode.Up? && t.done == s.done && t.now == s.now
    ensures t.jobs == s.jobs
    ensures (s.log.lh != [] && s.log.mode.done <= |s.log.lh|) || s.kept == |s.done| ==> t.kept == |t.done|
    decreases CommitLength(s.log.lh) - s.log.mode.done
  {
    hide CrashFs.Inv, Started, Reaches, Runs, CommitDisk;
    if s.log.mode.done == CommitLength(s.log.lh) {
      t := LogOn(c, ls, s, GroupCommit.FinishCommit);
      ms := ls + [Log(GroupCommit.FinishCommit)];
    } else {
      var u := LogOn(c, ls, s, GroupCommit.DiskWrite);
      InvRuns(c, u);
      ms, t := CommitEnds(c, ls + [Log(GroupCommit.DiskWrite)], u);
    }
  }

  /** begin_op, after boot. */
  lemma FirstBegin(c: Config) returns (s: Sys)
    requires Started(c)
    ensures Reaches(c, [Log(GroupCommit.BeginOp)], s) && CrashFs.Inv(c, s)
    ensures s == Sys(GroupCommit.DoBegin(GroupCommit.Boot(c.start)), [Idle], c.files, [], 0)
  {
    hide OnBlocks, FsRun.Sized, CrashFs.Inv, Runs, GroupCommit.Wf;
    var s0 := Sys(GroupCommit.Boot(c.start), [], c.files, [], 0);
    BootInv(c);
    InvRuns(c, s0);
    assert [] + [Idle] == [Idle];
    s := Sys(GroupCommit.DoBegin(s0.log), [Idle], c.files, [], 0);
    assert LogMoves(c, s0, GroupCommit.BeginOp, s) by {
      assert (s0.log.outstanding + 1) * c.g.maxop == c.g.maxop;
    }
    assert Reaches(c, [], s0);
    ReachesMore(c, [], s0, Log(GroupCommit.BeginOp), s);
    assert [] + [Log(GroupCommit.BeginOp)] == [Log(GroupCommit.BeginOp)];
    CrashFs.Step(c, s0, Log(GroupCommit.BeginOp), s);
  }

  /** And the beginning of a file operation. */
  lemma Begun(c: Config, op: FsRun.Op) returns (ls: seq<Label>, s: Sys)
    requires Started(c) && OnFile(op) && FsRun.Callable(op, |c.files.files|)
    requires FsActs.Acts(c.files.files[op.inum], op) != []
    ensures Reaches(c, ls, s) && CrashFs.Inv(c, s) && s.now == c.files && s.done == [] && s.kept == 0
    ensures s.jobs == [Busy(op, [], FsActs.Acts(c.files.files[op.inum], op), 0)]
    ensures s.log == GroupCommit.DoBegin(GroupCommit.Boot(c.start))
  {
    hide FsActs.Acts, CrashFs.Inv, Started, Reaches, Runs;
    var s1 := FirstBegin(c);
    InvRuns(c, s1);
    s := s1.(jobs := [Busy(op, [], FsActs.Acts(c.files.files[op.inum], op), 0)]);
    assert s1.jobs[0 := s.jobs[0]] == s.jobs;
    assert StartMoves(s1, 0, op, s);
    ls := [Log(GroupCommit.BeginOp)];
    ReachesMore(c, ls, s1, Start(0, op), s);
    CrashFs.Step(c, s1, Start(0, op), s);
    ls := ls + [Start(0, op)];
  }

  /** end_op of the only operation, and the commit. */
  lemma Committed(c: Config, ls: seq<Label>, s: Sys) returns (ms: seq<Label>, t: Sys)
    requires Started(c) && Reaches(c, ls, s) && CrashFs.Inv(c, s) && s.jobs == [Idle] && s.log.mode.Up?
    requires s.log.outstanding == 1
    ensures Reaches(c, ms, t) && CrashFs.Inv(c, t) && t.log.mode.Up? && t.done == s.done && t.log.active == []
    ensures s.log.lh != [] ==> t.kept == |t.done|
  {
    hide CrashFs.Inv, Started, Reaches, Runs, CommitDisk;
    InvRuns(c, s);
    var u := s.(log := GroupCommit.DoEnd(s.log, 0), jobs := RemoveAt(s.jobs, 0));
    assert LogMoves(c, s, GroupCommit.EndOp(0), u);
    ReachesMore(c, ls, s, Log(GroupCommit.EndOp(0)), u);
    CrashFs.Step(c, s, Log(GroupCommit.EndOp(0)), u);
    InvRuns(c, u);
    ms, t := CommitEnds(c, ls + [Log(GroupCommit.EndOp(0))], u);
    InvRuns(c, t);
  }

  /** The one step of reading or writing at the hole of a root directory. */
  function HoleAct(op: FsRun.Op): FsRun.Act
    requires op.Read? || op.Write?
  {
    if op.Read? then FsRun.Touch(op.inum, op.off) else FsRun.Round(op.inum, op.off, op.src)
  }

  lemma HoleActs(f: File, n: nat, op: FsRun.Op)
    requires f.typ != T_DEV && f.size == Mkfs.DIRENT * (n + 2) + BSIZE <= MAXFILE * BSIZE
    requires Mkfs.DIRENT * (n + 2) % BSIZE == 0
    requires op == FsLaws.HoleRead(n) || (op.Write? && op == FsLaws.HoleWrite(n, op.src) && |op.src| == Mkfs.DIRENT)
    ensures FsActs.Acts(f, op) == [HoleAct(op)] && FsRun.Want(HoleAct(op)) == Needed(op.off, Mkfs.DIRENT)
  {
    hide Needed;
    if op.Read? {
      FsActs.SameBlock(op.off, Mkfs.DIRENT);
      assert Last(f.size, op.off, op.n) - op.off == Mkfs.DIRENT;
      assert FsActs.Touches(op.inum, op.off + Mkfs.DIRENT, 0) == [];
      assert FsActs.Touches(op.inum, op.off, Mkfs.DIRENT) == [HoleAct(op)];
    } else {
      assert op.src[..Mkfs.DIRENT] == op.src && op.src[Mkfs.DIRENT..] == [];
      assert FsActs.Rounds(op.inum, op.off + Mkfs.DIRENT, []) == [];
      assert FsActs.Rounds(op.inum, op.off, op.src) == [HoleAct(op)];
    }
  }

  /** A run that loses a block: mkfs of any thirty files, whose root directory comes out with a hole; begin_op; a read
      or write of the hole, made by the code; end_op, and the commit.  A crash then leaves a disk on which a block is
      marked that no inode refers to. */
  method LostOnDisk(names: seq<seq<Byte>>, files: seq<seq<Byte>>, op: FsRun.Op)
    returns (disk: FsDisk?, ghost c: Config, ghost ls: seq<Label>, ghost t: Sys)
    requires |names| == |files| == 30 && Mkfs.Fit(files) && Mkfs.Total(files) < Mkfs.FSSIZE
    requires op == FsLaws.HoleRead(30) || (op.Write? && op == FsLaws.HoleWrite(30, op.src) && |op.src| == Mkfs.DIRENT)
    ensures disk != null && Started(c) && c.files == FsRun.Image(names, files)
    ensures Reaches(c, ls, t) && t.log.mode.Up? && t.log.active == [] && t.done == [op] && HeadOk(c.g, t.log.disk)
    ensures exists fs :: Layout(c.sb, c.g, Recover(c.g, t.log.disk), fs) && !Owned(c.sb, fs)
  {
    hide Needed, FsRun.Apply, FsRun.Fits, FsRun.EvictedAll, FsLaws.AllTidy, FsLaws.AllSynced, FsRun.Sized, Mkfs.Stored,
         FsRun.Image, FsRun.AllFit, FsRun.ApplyAll, Owned, FsRun.Holds, Layout, Reaches, CrashFs.Inv, Recover,
           FsActs.Acts,
         FsRun.Do, FsActs.Sensible, FsRun.Doable, FsActs.Takes, LogAll, OnBlocks, Found, Mkfs.Fit;
    var made;
    made, disk, c := MkfsDisk(names, files);
    ghost var p := c.files;
    var a := HoleAct(op);
    FsLaws.ImageTidy(names, files);
    FsLaws.RootHole(names, files) by { Small(); }
    FsLaws.RootKind(names, files);
    ghost var f := p.files[Mkfs.ROOTINO];
    FsLaws.HoleLost(p, f, 30, op);
    HoleActs(f, 30, op);
    ghost var s, k, puts, u;
    ls, s := Begun(c, op);
    k := Mkfs.DIRENT * 32 / BSIZE;
    OneMissing(k, f.refs);
    var ok;
    ok, puts, u := Operate(disk, a, c, s, 0);
    InvRuns(c, s);
    ReachesMore(c, ls, s, Call(0, puts), u);
    LogAllSame(c.g, s.log, 0, puts, u.log);
    ls, t := Committed(c, ls + [Call(0, puts)], u);
    assert [] + [op] == [op];
    LostEnd(c, ls, t, op);
  }

  lemma LostEnd(c: Config, ls: seq<Label>, t: Sys, op: FsRun.Op)
    requires Started(c) && Reaches(c, ls, t) && t.log.mode.Up? && t.log.active == [] && t.done == [op]
    requires FsRun.Sized(c.files) && FsRun.Callable(op, |c.files.files|) && FsRun.Fits(c.files, op)
    requires FsRun.Restarted(FsRun.Apply(c.files, op)).lost > 0
    ensures HeadOk(c.g, t.log.disk)
    ensures exists fs :: Layout(c.sb, c.g, Recover(c.g, t.log.disk), fs) && !Owned(c.sb, fs)
  {
    hide FsRun.Apply, FsRun.Fits, FsRun.EvictedAll, FsRun.Sized, FsRun.AllFit, FsRun.ApplyAll, Owned, Layout, Reaches,
         Recover,
         Found, Started;
    AllDurable(c, ls, t);
    FsLaws.OneOp(c.files, op);
    NotOwned(c.sb, c.g, Recover(c.g, t.log.disk), FsRun.Restarted(t.now));
  }

  lemma OneMissing(k: nat, refs: set<nat>)
    requires k !in refs
    ensures |{k} - refs| == 1
  {
    assert {k} - refs == {k};
  }

  lemma Small()
    ensures Mkfs.DIRENT * 32 % BSIZE == 0
  {
  }

  lemma NotOwned(sb: Super, g: Geometry, d: Disk, p: FsRun.Plain)
    requires Found(sb, g, d, p) && p.lost > 0
    ensures exists fs :: Layout(sb, g, d, fs) && !Owned(sb, fs)
  {
    hide Layout, FsRun.Holds, Owned;
  }

  lemma {:induction false} LogAllSame(g: Geometry, s: GroupCommit.Sys, i: nat, puts: seq<Put>, t: GroupCommit.Sys)
    requires LogAll(g, s, i, puts, t)
    ensures t.mode == s.mode && t.outstanding == s.outstanding
    decreases |puts|
  {
    if |puts| > 0 {
      LogAllSame(g, GroupCommit.Next(g, s, GroupCommit.LogWrite(i, puts[0].blk, puts[0].data)), i, puts[1..], t);
    }
  }

  // ---- a crash during filewrite -----------------------------------------------------------------------------

  /** The chunk that filewrite begins n bytes with. */
  function First(n: nat): (m: nat)
    requires n > 0
    ensures 0 < m <= n && m <= FileWrite.MAXCHUNK
  {
    FileWrite.Chunk(0, n)
  }

  /** The first m chunks in which filewrite writes src at off. */
  function Chunks(i: nat, off: nat, src: seq<Byte>, m: nat): (ops: seq<FsRun.Op>)
    decreases |src|
  {
    if m == 0 || |src| == 0 then []
    else var k := First(|src|); [FsRun.Write(i, off, src[..k])] + Chunks(i, off + k, src[k..], m - 1)
  }

  /** How many bytes they are. */
  function Bytes(n: nat, m: nat): (k: nat)
    ensures k <= n
  {
    if m == 0 || n == 0 then 0 else First(n) + Bytes(n - First(n), m - 1)
  }

  /** Whole chunks, or all. */
  lemma {:induction false} BytesAre(n: nat, m: nat)
    ensures Bytes(n, m) == if m * FileWrite.MAXCHUNK < n then m * FileWrite.MAXCHUNK else n
    decreases m
  {
    if m > 0 && n > 0 {
      BytesAre(n - First(n), m - 1);
    }
  }

  /** What a reader of the file gets. */
  function Shown(f: File): seq<Byte>
    requires f.size <= |f.bytes|
  {
    f.bytes[..f.size]
  }

  /** One chunk. */
  lemma ChunkMakes(p: FsRun.Plain, i: nat, off: nat, part: seq<Byte>)
    requires FsRun.Sized(p) && i < |p.files| && p.files[i].size <= MAXFILE * BSIZE
    requires FsRun.Writes(p.files[i], off, |part|) && |part| < WORD_LIMIT
    requires FsRun.Callable(FsRun.Write(i, off, part), |p.files|) && FsRun.Fits(p, FsRun.Write(i, off, part))
    ensures var f, q := p.files[i], FsRun.Apply(p, FsRun.Write(i, off, part));
            && FsRun.Sized(q) && |q.files[i].bytes| == |f.bytes| == MAXFILE * BSIZE && q.files[i].typ == f.typ
            && off + |part| <= q.files[i].size <= MAXFILE * BSIZE
            && Shown(q.files[i]) == Replace(Shown(f), off, part)
  {
    hide Needed, FsRun.Fits, FsRun.Apply;
    FsRun.ApplyWrite(p, FsRun.Write(i, off, part));
    FsRun.ApplySized(p, FsRun.Write(i, off, part));
  }

  lemma ReplaceTwice(c: seq<Byte>, off: nat, a: seq<Byte>, b: seq<Byte>)
    requires off <= |c|
    ensures Replace(Replace(c, off, a), off + |a|, b) == Replace(c, off, a + b)
  {
  }

  /** The file as the first m chunks leave it. */
  lemma {:induction false} ChunksMake(p: FsRun.Plain, i: nat, off: nat, src: seq<Byte>, m: nat)
    requires FsRun.Sized(p) && i < |p.files| && p.files[i].size <= MAXFILE * BSIZE
    requires FsRun.Writes(p.files[i], off, |src|)
    requires FsRun.AllCallable(Chunks(i, off, src, m), |p.files|) && FsRun.AllFit(p, Chunks(i, off, src, m))
    ensures var f := FsRun.ApplyAll(p, Chunks(i, off, src, m)).files[i];
            && f.size <= MAXFILE * BSIZE == |f.bytes|
            && Shown(f) == Replace(Shown(p.files[i]), off, src[..Bytes(|src|, m)])
    decreases |src|
  {
    hide FsRun.Fits, FsRun.Apply, Replace, Shown, First, FsRun.Sized;
    var f := p.files[i];
    SizedFile(p, i);
    ShownSize(f);
    if m == 0 || |src| == 0 {
      assert src[..0] == [];
      ReplaceNone(Shown(f), off);
    } else {
      var k := First(|src|);
      var part, rest := src[..k], src[k..];
      var ops := Chunks(i, off, src, m);
      assert ops[0] == FsRun.Write(i, off, part) && ops[1..] == Chunks(i, off + k, rest, m - 1);
      ChunkMakes(p, i, off, part);
      ChunksMake(FsRun.Apply(p, ops[0]), i, off + k, rest, m - 1);
      ReplaceTwice(Shown(f), off, part, rest[..Bytes(|rest|, m - 1)]);
      Prefixes(src, k, Bytes(|rest|, m - 1));
    }
  }

  lemma Prefixes(src: seq<Byte>, k: nat, n: nat)
    requires k + n <= |src|
    ensures src[..k] + src[k..][..n] == src[..k + n]
  {
  }

  lemma SizedFile(p: FsRun.Plain, i: nat)
    requires FsRun.Sized(p) && i < |p.files|
    ensures |p.files[i].bytes| == MAXFILE * BSIZE
  {
  }

  lemma ShownSize(f: File)
    requires f.size <= |f.bytes|
    ensures |Shown(f)| == f.size
  {
  }

  lemma ReplaceNone(c: seq<Byte>, off: nat)
    requires off <= |c|
    ensures Replace(c, off, []) == c
  {
  }

  lemma {:induction false} ApplyAllTwice(p: FsRun.Plain, a: seq<FsRun.Op>, b: seq<FsRun.Op>)
    requires FsRun.Sized(p) && FsRun.AllCallable(a + b, |p.files|) && FsRun.AllFit(p, a + b)
    ensures FsRun.AllCallable(a, |p.files|) && FsRun.AllFit(p, a)
    ensures FsRun.AllCallable(b, |p.files|) && FsRun.AllFit(FsRun.ApplyAll(p, a), b)
    ensures FsRun.ApplyAll(p, a + b) == FsRun.ApplyAll(FsRun.ApplyAll(p, a), b)
    decreases |a|
  {
    hide FsRun.Fits, FsRun.Apply, FsRun.Sized;
    assert forall k | 0 <= k < |a| :: a[k] == (a + b)[k];
    assert forall k | 0 <= k < |b| :: b[k] == (a + b)[|a| + k];
    if |a| == 0 {
      assert a + b == b;
    } else {
      FsRun.ApplySized(p, a[0]);
      assert (a + b)[1..] == a[1..] + b;
      ApplyAllTwice(FsRun.Apply(p, a[0]), a[1..], b);
    }
  }

  /** A crash while filewrite writes src at off, on files without holes and with nobody else writing meanwhile: recovery
      brings back the file with a whole number of chunks of it, or all, and every block owned. */
  lemma FilewriteCrash(c: Config, ls: seq<Label>, t: Sys, before: seq<FsRun.Op>, i: nat, off: nat, src: seq<Byte>,
                       m: nat)
    returns (q: FsRun.Plain, r: FsRun.Plain)
    requires Started(c) && Reaches(c, ls, t) && FsLaws.Sound(c.files)
    requires t.kept <= |t.done| && t.done[..t.kept] == before + Chunks(i, off, src, m)
    requires i < |c.files.files|
    ensures Runs(c, before) && q == FsRun.ApplyAll(c.files, before) && q.files[i].size <= |q.files[i].bytes|
    ensures HeadOk(c.g, t.log.disk) && Found(c.sb, c.g, Recover(c.g, t.log.disk), r) && r.lost == 0
    ensures |r.files| == |q.files| && r.files[i].size <= |r.files[i].bytes|
    ensures FsRun.Writes(q.files[i], off, |src|) ==>
              Shown(r.files[i]) == Replace(Shown(q.files[i]), off, src[..Bytes(|src|, m)])
  {
    hide Found, Started, Reaches, FsRun.ApplyAll, FsRun.AllFit, FsRun.EvictedAll, Recover, Shown, Replace, Chunks,
         Bytes;
    SoundRecovers(c, ls, t);
    ApplyAllTwice(c.files, before, Chunks(i, off, src, m));
    q := FsRun.ApplyAll(c.files, before);
    r := FsRun.ApplyAll(c.files, t.done[..t.kept]);
    FsLaws.NeverLost(c.files, before);
    FsLaws.NeverLost(c.files, t.done[..t.kept]);
    assert FsLaws.Tidy(q.files[i]) && FsLaws.Tidy(r.files[i]);
    if FsRun.Writes(q.files[i], off, |src|) {
      ChunksMake(q, i, off, src, m);
    }
  }
}
